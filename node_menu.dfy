/**
 * The property menu of the pedigree editor: the per-field bookkeeping
 * (`fieldMap`) behind its controls, binding a node with `show`, `update`
 * and `hide`, the listener that turns a control change into a node
 * event, the debounce queue of the two date pickers, and how radio
 * options are hidden or disabled. Controls are abstract slots: what a
 * control shows is not modelled, only the values the menu keeps for it.
 */
module NodeMenus {
  import opened Wrappers
  import opened JsValues
  import JsText

  /** The field types `_generateField` has a generator for. */
  const GeneratedTypes: set<string> :=
    {"radio", "checkbox", "button", "text", "textarea", "date-picker", "disease-picker",
     "hpo-picker", "gene-picker", "select", "hidden"}

  const DateOfBirth: string := "date_of_birth"
  const DateOfDeath: string := "date_of_death"

  /** The two fields whose changes go through the debounce queue. */
  predicate IsDateField(name: string) {
    name == DateOfBirth || name == DateOfDeath
  }

  /** A JavaScript value other than a boolean; booleans are the `Flag` settings. */
  type NonBoolean = v: Value | !v.Bool? witness Undefined

  /**
   * An `inactive` or `disabled` setting: a boolean, an array of option
   * values, or any other JavaScript value.
   */
  datatype Switch = Flag(b: bool) | Options(values: seq<string>) | Plain(v: NonBoolean)

  predicate SwitchTruthy(s: Switch) {
    match s
    case Flag(b) => b
    case Options(_) => true
    case Plain(v) => Truthy(v)
  }

  /** `typeof s == 'boolean' || typeof s == 'object'` (arrays and `null` are objects). */
  predicate BooleanOrObject(s: Switch) {
    s.Flag? || s.Options? || (s.Plain? && (s.v.Null? || s.v.Obj?))
  }

  /** One entry of the menu description the editor builds the menu from. */
  datatype FieldDescriptor = FieldDescriptor(name: string, fieldType: string, default: Value, nodeFunction: string, disabled: Switch)

  /** One `fieldMap` entry; the DOM element is left out. */
  datatype Field = Field(fieldType: string, default: Value, crtValue: Value, nodeFunction: string, inactive: Switch, disabled: Switch)

  /** One property of a node's `getSummary()`. */
  datatype SummaryEntry = SummaryEntry(value: Value, inactive: Switch, disabled: Switch)

  type Summary = map<string, SummaryEntry>

  /** The node a menu is bound to: its ID and the names of the functions it has. */
  datatype NodeRef = NodeRef(id: int, functions: set<string>)

  /** The memo of a node event: which node, which property, the new value. */
  datatype NodeChange = NodeChange(nodeID: int, property: string, value: Value)

  /** What the menu fires on the document, or asks of the node, in order. */
  datatype MenuEvent =
    | ShowMenu(node: int)           // `pedigree:node:showmenu`
    | SetProperty(change: NodeChange)  // `pedigree:node:setproperty`
    | Modify(change: NodeChange)       // `pedigree:node:modify`
    | FieldChanged(field: string)      // `pedigree:change` on the control
    | WidgetHidden(node: int)          // `onWidgetHide()` on the node

  /** A date-picker timeout waiting to run: the field, the queue length it saw, and which event it fires. */
  datatype Pending = Pending(field: string, eventNum: nat, asSetProperty: bool)

  // ----- fields -----

  /** `_generateEmptyField`: current value and default both `data.default || ''`, active. */
  function NewField(d: FieldDescriptor): Field {
    var dflt := Or(d.default, Str(""));
    Field(d.fieldType, dflt, dflt, d.nodeFunction, Flag(false), d.disabled)
  }

  /** The constructor's loop: one entry per descriptor whose type has a generator, a later name replacing an earlier one. */
  function FieldsOf(ds: seq<FieldDescriptor>): map<string, Field> {
    if ds == [] then map[]
    else
      var d := ds[|ds| - 1];
      var m := FieldsOf(ds[..|ds| - 1]);
      if d.fieldType in GeneratedTypes then m[d.name := NewField(d)] else m
  }

  /** `_clearCrtData` on one entry: back to the default, active again; `disabled` is kept. */
  function ClearField(f: Field): Field {
    f.(crtValue := f.default, inactive := Flag(false))
  }

  function ClearedFields(m: map<string, Field>): map<string, Field> {
    map n | n in m :: ClearField(m[n])
  }

  /**
   * `_setCrtData` on one entry: the summary's value when it has one,
   * otherwise the current value or else the default; `inactive` and
   * `disabled` taken from the summary only when they are booleans or objects.
   */
  function SetCrtField(f: Field, e: Option<SummaryEntry>): Field {
    match e
    case None => f.(crtValue := Or(f.crtValue, f.default))
    case Some(s) =>
      f.(crtValue := if !s.value.Undefined? then s.value else Or(f.crtValue, f.default),
         inactive := if BooleanOrObject(s.inactive) then s.inactive else f.inactive,
         disabled := if BooleanOrObject(s.disabled) then s.disabled else f.disabled)
  }

  function EntryOf(summary: Summary, name: string): Option<SummaryEntry> {
    if name in summary then Some(summary[name]) else None
  }

  function SetCrtFields(m: map<string, Field>, summary: Summary): map<string, Field> {
    map n | n in m :: SetCrtField(m[n], EntryOf(summary, n))
  }

  /** The menu gets an entry exactly for the names of descriptors whose type has a generator. */
  lemma {:induction false} FieldsOfKeys(ds: seq<FieldDescriptor>)
    ensures forall n :: n in FieldsOf(ds) <==> exists i :: 0 <= i < |ds| && ds[i].name == n && ds[i].fieldType in GeneratedTypes
  {
    if ds != [] {
      var init := ds[..|ds| - 1];
      FieldsOfKeys(init);
      forall n
        ensures n in FieldsOf(ds) <==> exists i :: 0 <= i < |ds| && ds[i].name == n && ds[i].fieldType in GeneratedTypes
      {
        if n in FieldsOf(init) {
          var i :| 0 <= i < |init| && init[i].name == n && init[i].fieldType in GeneratedTypes;
          assert ds[i] == init[i];
        }
        if exists i :: 0 <= i < |ds| && ds[i].name == n && ds[i].fieldType in GeneratedTypes {
          var i :| 0 <= i < |ds| && ds[i].name == n && ds[i].fieldType in GeneratedTypes;
          if i < |init| {
            assert init[i] == ds[i];
          }
        }
      }
    }
  }

  /** An entry comes from the last descriptor of its name whose type has a generator. */
  lemma {:induction false} FieldsOfLast(ds: seq<FieldDescriptor>)
    ensures forall i :: 0 <= i < |ds| && ds[i].fieldType in GeneratedTypes
                        && (forall j :: i < j < |ds| ==> ds[j].name != ds[i].name || ds[j].fieldType !in GeneratedTypes) ==>
              ds[i].name in FieldsOf(ds) && FieldsOf(ds)[ds[i].name] == NewField(ds[i])
  {
    if ds != [] {
      var init := ds[..|ds| - 1];
      FieldsOfLast(init);
      forall i | 0 <= i < |ds| && ds[i].fieldType in GeneratedTypes
                 && (forall j :: i < j < |ds| ==> ds[j].name != ds[i].name || ds[j].fieldType !in GeneratedTypes)
        ensures ds[i].name in FieldsOf(ds) && FieldsOf(ds)[ds[i].name] == NewField(ds[i])
      {
        if i < |init| {
          assert init[i] == ds[i];
          assert forall j :: i < j < |init| ==> init[j] == ds[j];
        }
      }
    }
  }

  /** Every entry of a new menu holds its default (`data.default || ''`) as current value and is active. */
  lemma {:induction false} FieldsOfFresh(ds: seq<FieldDescriptor>)
    ensures forall n :: n in FieldsOf(ds) ==>
              var f := FieldsOf(ds)[n];
              f.crtValue == f.default && f.inactive == Flag(false) && (Truthy(f.default) || f.default == Str(""))
  {
    if ds != [] {
      FieldsOfFresh(ds[..|ds| - 1]);
    }
  }

  /** Clearing twice is clearing once. */
  lemma ClearIdempotent(m: map<string, Field>)
    ensures ClearedFields(ClearedFields(m)) == ClearedFields(m)
  {
  }

  /** A freshly built menu is already cleared, so the `hide()` closing the constructor leaves it as built. */
  lemma NewFieldsCleared(ds: seq<FieldDescriptor>)
    ensures ClearedFields(FieldsOf(ds)) == FieldsOf(ds)
  {
    FieldsOfFresh(ds);
  }

  /**
   * Loading a summary takes every defined value from it; clearing
   * afterwards gives back the defaults and active fields, whatever the
   * summary held. Only `disabled` remembers the summary.
   */
  lemma SetThenClear(m: map<string, Field>, summary: Summary)
    ensures SetCrtFields(m, summary).Keys == m.Keys
    ensures forall n :: n in m && n in summary && !summary[n].value.Undefined? ==> SetCrtFields(m, summary)[n].crtValue == summary[n].value
    ensures forall n :: n in m ==> ClearedFields(SetCrtFields(m, summary))[n] == ClearedFields(m)[n].(disabled := SetCrtFields(m, summary)[n].disabled)
  {
  }

  /** Loading the same summary twice is loading it once. */
  lemma SetCrtIdempotent(m: map<string, Field>, summary: Summary)
    ensures SetCrtFields(SetCrtFields(m, summary), summary) == SetCrtFields(m, summary)
  {
    var once := SetCrtFields(m, summary);
    forall n | n in m
      ensures SetCrtField(once[n], EntryOf(summary, n)) == once[n]
    {
      var f := m[n];
      var e := EntryOf(summary, n);
      if e.None? {
        assert once[n].crtValue == Or(f.crtValue, f.default);
      }
    }
  }

  // ----- the listener -----

  /** `method.indexOf('set') == 0 && typeof(target[method]) == 'function'`. */
  predicate IsSetter(target: NodeRef, fn: string) {
    JsText.IndexOf(fn, "set") == Some(0) && fn in target.functions
  }

  /**
   * What a control change asks of the node: nothing while the menu is
   * updating, when no node is bound, or when the new value loosely equals
   * the node's; otherwise a `setproperty` event for a setter the node has
   * and a `modify` event for anything else, carrying the node's ID.
   */
  function Reaction(updating: bool, target: Option<NodeRef>, fn: string, value: Value, summaryValue: Value): (r: Option<MenuEvent>)
    ensures r.None? <==> updating || target.None? || LooseEquals(summaryValue, value)
    ensures r.Some? ==> (r.value.SetProperty? || r.value.Modify?)
                        && r.value.change == NodeChange(target.value.id, fn, value)
                        && (r.value.SetProperty? <==> IsSetter(target.value, fn))
  {
    if updating || target.None? || LooseEquals(summaryValue, value) then None
    else
      var c := NodeChange(target.value.id, fn, value);
      if IsSetter(target.value, fn) then Some(SetProperty(c)) else Some(Modify(c))
  }

  /** A menu in the middle of `update` never fires, whatever changes. */
  lemma UpdatingIsSilent(target: Option<NodeRef>, fn: string, value: Value, summaryValue: Value)
    ensures Reaction(true, target, fn, value, summaryValue).None?
  {
  }

  /** Setting a control back to the value the node already has fires nothing. */
  lemma SameValueIsSilent(updating: bool, target: Option<NodeRef>, fn: string, v: Value)
    ensures Reaction(updating, target, fn, v, v).None?
  {
    LooseEqualsReflexive(v);
  }

  // ----- the date-picker queue -----

  /** A timeout that runs: when no change was queued after it, the last change is dispatched and the queue emptied. */
  function RunTimeout(queue: seq<NodeChange>, eventNum: nat): (r: (seq<NodeChange>, Option<NodeChange>))
    ensures |queue| == eventNum && eventNum > 0 ==> r == ([], Some(queue[|queue| - 1]))
    ensures |queue| != eventNum ==> r == (queue, None)
  {
    if |queue| == eventNum && eventNum > 0 then ([], Some(queue[|queue| - 1]))
    else (queue, None)
  }

  /** Timeouts run in order (they all wait the same two seconds); the changes they dispatch, in order. */
  function RunTimeouts(queue: seq<NodeChange>, nums: seq<nat>): (seq<NodeChange>, seq<NodeChange>)
    decreases |nums|
  {
    if nums == [] then (queue, [])
    else
      var (q1, d) := RunTimeout(queue, nums[0]);
      var (q2, rest) := RunTimeouts(q1, nums[1..]);
      (q2, (if d.Some? then [d.value] else []) + rest)
  }

  /** The queue lengths a burst of `n` changes leaves for its timeouts: 1, 2, ..., n. */
  function Counts(from: nat, n: nat): (r: seq<nat>)
    ensures |r| == n && forall i :: 0 <= i < n ==> r[i] == from + i + 1
    decreases n
  {
    if n == 0 then [] else [from + 1] + Counts(from + 1, n - 1)
  }

  /**
   * A burst: changes pushed one after another before any of their
   * timeouts runs. Of the timeouts, only the last finds the queue as it
   * left it, so exactly one change, the last, is dispatched, and the queue
   * ends empty.
   */
  lemma {:induction false} BurstDispatchesLast(queue: seq<NodeChange>, from: nat, n: nat)
    requires n > 0 && |queue| == from + n
    ensures RunTimeouts(queue, Counts(from, n)) == ([], [queue[|queue| - 1]])
    decreases n
  {
    var nums := Counts(from, n);
    if n == 1 {
      assert nums == [from + 1] && nums[1..] == [];
      assert RunTimeout(queue, from + 1) == ([], Some(queue[|queue| - 1]));
      assert RunTimeouts([], []) == ([], []);
      assert RunTimeouts(queue, nums) == ([], [queue[|queue| - 1]] + []);
      assert [queue[|queue| - 1]] + [] == [queue[|queue| - 1]];
    } else {
      assert nums[0] == from + 1 && nums[1..] == Counts(from + 1, n - 1);
      assert RunTimeout(queue, from + 1) == (queue, None);
      BurstDispatchesLast(queue, from + 1, n - 1);
      var tail := RunTimeouts(queue, nums[1..]);
      assert tail == ([], [queue[|queue| - 1]]);
      assert RunTimeouts(queue, nums) == (tail.0, [] + tail.1);
      assert [] + tail.1 == tail.1;
    }
  }

  /** A burst of changes on a field with an empty queue dispatches its last change only. */
  lemma BurstFromEmpty(changes: seq<NodeChange>)
    requires changes != []
    ensures RunTimeouts(changes, Counts(0, |changes|)) == ([], [changes[|changes| - 1]])
  {
    BurstDispatchesLast(changes, 0, |changes|);
  }

  // ----- radio options -----

  /** A radio field's controls: whether the field is hidden, and per option whether it is disabled and hidden. */
  datatype RadioView = RadioView(hidden: bool, optionDisabled: seq<bool>, optionHidden: seq<bool>)

  predicate RadioWellFormed(values: seq<string>, v: RadioView) {
    |v.optionDisabled| == |values| && |v.optionHidden| == |values|
  }

  /** `_setFieldInactive['radio']`. */
  function RadioInactive(values: seq<string>, v: RadioView, inactive: Switch): (r: RadioView)
    requires RadioWellFormed(values, v)
    ensures RadioWellFormed(values, r)
    ensures inactive == Flag(true) ==> r == v.(hidden := true)
    ensures inactive.Options? ==>
              !r.hidden && forall k :: 0 <= k < |values| ==> r.optionDisabled[k] == r.optionHidden[k] == (values[k] in inactive.values)
    ensures !SwitchTruthy(inactive) ==>
              !r.hidden && forall k :: 0 <= k < |values| ==> !r.optionDisabled[k] && !r.optionHidden[k]
    ensures inactive != Flag(true) && SwitchTruthy(inactive) && !inactive.Options? ==> r == v.(hidden := false)
  {
    if inactive == Flag(true) then v.(hidden := true)
    else if SwitchTruthy(inactive) && inactive.Options? then
      var ds := seq(|values|, k requires 0 <= k < |values| => values[k] in inactive.values);
      RadioView(false, ds, ds)
    else if !SwitchTruthy(inactive) then
      RadioView(false, seq(|values|, _ => false), seq(|values|, _ => false))
    else v.(hidden := false)
  }

  /** `_setFieldDisabled['radio']`: like `inactive`, but options are only disabled, never hidden. */
  function RadioDisabled(values: seq<string>, v: RadioView, disabled: Switch): (r: RadioView)
    requires RadioWellFormed(values, v)
    ensures RadioWellFormed(values, r)
    ensures disabled == Flag(true) ==> r == v.(hidden := true)
    ensures disabled.Options? ==>
              !r.hidden && r.optionHidden == v.optionHidden
              && forall k :: 0 <= k < |values| ==> r.optionDisabled[k] == (values[k] in disabled.values)
    ensures !SwitchTruthy(disabled) ==>
              !r.hidden && r.optionHidden == v.optionHidden && forall k :: 0 <= k < |values| ==> !r.optionDisabled[k]
    ensures disabled != Flag(true) && SwitchTruthy(disabled) && !disabled.Options? ==> r == v.(hidden := false)
  {
    if disabled == Flag(true) then v.(hidden := true)
    else if SwitchTruthy(disabled) && disabled.Options? then
      v.(hidden := false, optionDisabled := seq(|values|, k requires 0 <= k < |values| => values[k] in disabled.values))
    else if !SwitchTruthy(disabled) then
      v.(hidden := false, optionDisabled := seq(|values|, _ => false))
    else v.(hidden := false)
  }

  /** Listing no option is not the same as `false`: an empty array leaves every option enabled but is still an array. */
  lemma RadioEmptyListEnables(values: seq<string>, v: RadioView)
    requires RadioWellFormed(values, v)
    ensures RadioInactive(values, v, Options([])) == RadioInactive(values, v, Flag(false))
  {
  }

  // ----- the menu -----

  class NodeMenu {
    var fieldMap: map<string, Field>
    var targetNode: Option<NodeRef>
    var onscreen: bool
    /** Set only while `update` refreshes the controls. */
    var updating: bool
    /** `_datepickerEventQueue`: the changes waiting per date field. */
    var queues: map<string, seq<NodeChange>>
    /** The date-picker timeouts scheduled and not yet run, in the order they will run. */
    var timeouts: seq<Pending>
    /** Everything the menu has fired or asked of a node, oldest first. */
    var fired: seq<MenuEvent>

    /** Both date fields have a queue, and every pending timeout belongs to one of them. */
    ghost predicate Valid()
      reads this
    {
      DateOfBirth in queues && DateOfDeath in queues
      && (forall p :: p in timeouts ==> IsDateField(p.field))
    }

    /** The constructor's field loop, the two empty date queues and the closing `hide()`. */
    constructor (data: seq<FieldDescriptor>)
      ensures Valid() && fieldMap == FieldsOf(data)
      ensures targetNode.None? && !onscreen && !updating && timeouts == [] && fired == []
      ensures queues == map[DateOfBirth := [], DateOfDeath := []]
    {
      fieldMap := map[];
      targetNode := None;
      onscreen := false;
      updating := false;
      queues := map[DateOfBirth := [], DateOfDeath := []];
      timeouts := [];
      fired := [];
      new;
      var i := 0;
      while i < |data|
        invariant 0 <= i <= |data|
        invariant fieldMap == FieldsOf(data[..i])
        invariant targetNode.None? && !onscreen && !updating && timeouts == [] && fired == []
        invariant queues == map[DateOfBirth := [], DateOfDeath := []]
      {
        assert data[..i + 1][..i] == data[..i];
        if data[i].fieldType in GeneratedTypes {
          GenerateEmptyField(data[i]);
        }
        i := i + 1;
      }
      assert data[..|data|] == data;
      NewFieldsCleared(data);
      Hide();
    }

    /** `_generateEmptyField`: the entry for one descriptor. */
    method GenerateEmptyField(d: FieldDescriptor)
      modifies this`fieldMap
      ensures fieldMap == old(fieldMap)[d.name := NewField(d)]
    {
      var dflt := if Truthy(d.default) then d.default else Str("");
      fieldMap := fieldMap[d.name := Field(d.fieldType, dflt, dflt, d.nodeFunction, Flag(false), d.disabled)];
    }

    function IsVisible(): bool
      reads this
    {
      onscreen
    }

    /** `_clearCrtData`: every entry back to its default, in no particular order. */
    method ClearCrtData()
      modifies this`fieldMap
      ensures fieldMap == ClearedFields(old(fieldMap))
    {
      var names := fieldMap.Keys;
      while names != {}
        invariant names <= old(fieldMap).Keys && fieldMap.Keys == old(fieldMap).Keys
        invariant forall n :: n in fieldMap ==> fieldMap[n] == if n in names then old(fieldMap)[n] else ClearField(old(fieldMap)[n])
        decreases names
      {
        var name :| name in names;
        fieldMap := fieldMap[name := fieldMap[name].(crtValue := fieldMap[name].default)];
        fieldMap := fieldMap[name := fieldMap[name].(inactive := Flag(false))];
        names := names - {name};
      }
    }

    /** `_setCrtData`: every entry takes what the summary says of it, in no particular order. */
    method SetCrtData(summary: Summary)
      modifies this`fieldMap
      ensures fieldMap == SetCrtFields(old(fieldMap), summary)
    {
      var names := fieldMap.Keys;
      while names != {}
        invariant names <= old(fieldMap).Keys && fieldMap.Keys == old(fieldMap).Keys
        invariant forall n :: n in fieldMap ==>
                    fieldMap[n] == if n in names then old(fieldMap)[n] else SetCrtField(old(fieldMap)[n], EntryOf(summary, n))
        decreases names
      {
        var name :| name in names;
        fieldMap := fieldMap[name := SetCrtField(fieldMap[name], EntryOf(summary, name))];
        names := names - {name};
      }
    }

    /** `show`: announce the menu, bind the node and load its summary. */
    method Show(node: NodeRef, summary: Summary)
      modifies this`fired, this`onscreen, this`targetNode, this`fieldMap
      ensures fired == old(fired) + [ShowMenu(node.id)]
      ensures IsVisible() && targetNode == Some(node)
      ensures fieldMap == SetCrtFields(old(fieldMap), summary)
    {
      fired := fired + [ShowMenu(node.id)];
      onscreen := true;
      targetNode := Some(node);
      SetCrtData(summary);
    }

    /** `hide`: tell the bound node, unbind it and reset every field. */
    method Hide()
      modifies this`fired, this`onscreen, this`targetNode, this`fieldMap
      ensures !IsVisible() && targetNode.None?
      ensures fired == old(fired) + (if old(targetNode).Some? then [WidgetHidden(old(targetNode).value.id)] else [])
      ensures fieldMap == ClearedFields(old(fieldMap))
    {
      onscreen := false;
      if targetNode.Some? {
        fired := fired + [WidgetHidden(targetNode.value.id)];
        targetNode := None;
      }
      ClearCrtData();
    }

    /** `update`: bind a new node if one is given, then reload the bound node's summary with the listener silenced. */
    method Update(newTarget: Option<NodeRef>, summary: Summary)
      modifies this`targetNode, this`updating, this`fieldMap
      ensures targetNode == if newTarget.Some? then newTarget else old(targetNode)
      ensures fieldMap == if targetNode.Some? then SetCrtFields(old(fieldMap), summary) else old(fieldMap)
      ensures updating == (old(updating) && targetNode.None?)
    {
      if newTarget.Some? {
        targetNode := newTarget;
      }
      if targetNode.Some? {
        updating := true;
        SetCrtData(summary);
        updating := false;
      }
    }

    /** `_handleDatePickerChangeEvent`: queue the change and schedule a timeout that remembers the queue's new length. */
    method HandleDatePickerChange(name: string, change: NodeChange, asSetProperty: bool)
      requires Valid() && IsDateField(name)
      modifies this`queues, this`timeouts
      ensures Valid()
      ensures queues == old(queues)[name := old(queues)[name] + [change]]
      ensures timeouts == old(timeouts) + [Pending(name, |queues[name]|, asSetProperty)]
    {
      queues := queues[name := queues[name] + [change]];
      var eventNum := |queues[name]|;
      timeouts := timeouts + [Pending(name, eventNum, asSetProperty)];
    }

    /** The oldest pending timeout runs: it fires the last queued change only if nothing was queued after it. */
    method RunNextTimeout()
      requires Valid() && timeouts != []
      modifies this`queues, this`timeouts, this`fired
      ensures Valid() && timeouts == old(timeouts)[1..]
      ensures var p := old(timeouts)[0];
              var (q, d) := RunTimeout(old(queues)[p.field], p.eventNum);
              queues == old(queues)[p.field := q]
              && fired == old(fired) + (if d.Some? then [if p.asSetProperty then SetProperty(d.value) else Modify(d.value), FieldChanged(p.field)] else [])
    {
      var p := timeouts[0];
      timeouts := timeouts[1..];
      var queue := queues[p.field];
      if |queue| == p.eventNum && |queue| > 0 {
        var last := queue[|queue| - 1];
        fired := fired + [if p.asSetProperty then SetProperty(last) else Modify(last)];
        queues := queues[p.field := []];
        fired := fired + [FieldChanged(p.field)];
      }
    }

    /**
     * The listener of a control: record the control's value, then, unless
     * it matches the node's, fire the event `Reaction` describes, through
     * the queue for the two date fields.
     */
    method OnFieldChange(name: string, value: Value, summary: Summary)
      requires Valid() && name in fieldMap && name in summary
      modifies this`fieldMap, this`queues, this`timeouts, this`fired
      ensures Valid()
      ensures var r := Reaction(old(updating), targetNode, old(fieldMap)[name].nodeFunction, value, summary[name].value);
        && (old(updating) || targetNode.None? ==> fieldMap == old(fieldMap))
        && (!old(updating) && targetNode.Some? ==> fieldMap == old(fieldMap)[name := old(fieldMap)[name].(crtValue := value)])
        && (r.None? ==> fired == old(fired) && queues == old(queues) && timeouts == old(timeouts))
        && (r.Some? && !IsDateField(name) ==>
              fired == old(fired) + [r.value, FieldChanged(name)] && queues == old(queues) && timeouts == old(timeouts))
        && (r.Some? && IsDateField(name) ==>
              fired == old(fired) && queues == old(queues)[name := old(queues)[name] + [r.value.change]]
              && timeouts == old(timeouts) + [Pending(name, |queues[name]|, r.value.SetProperty?)])
    {
      if updating {
        return;
      }
      if targetNode.None? {
        return;
      }
      var target := targetNode.value;
      fieldMap := fieldMap[name := fieldMap[name].(crtValue := value)];
      var fn := fieldMap[name].nodeFunction;
      if LooseEquals(summary[name].value, fieldMap[name].crtValue) {
        return;
      }
      var change := NodeChange(target.id, fn, fieldMap[name].crtValue);
      var asSetProperty := JsText.IndexOf(fn, "set") == Some(0) && fn in target.functions;
      if IsDateField(name) {
        HandleDatePickerChange(name, change, asSetProperty);
      } else {
        fired := fired + [if asSetProperty then SetProperty(change) else Modify(change)];
        fired := fired + [FieldChanged(name)];
      }
    }

    /** `fieldMap[name].disabled = d`, as the Gen-O buttons are switched. */
    method SetDisabled(name: string, d: bool)
      requires name in fieldMap
      modifies this`fieldMap
      ensures fieldMap == old(fieldMap)[name := old(fieldMap)[name].(disabled := Flag(d))]
    {
      fieldMap := fieldMap[name := fieldMap[name].(disabled := Flag(d))];
    }
  }
}
