# Open Pedigree: term values, person state, legends, node menu and Gen-O reconciliation

This project models the bookkeeping behind the Open Pedigree editor's
property menu, and proves properties of that model.

- **Term values.** Disorders, HPO phenotype terms and candidate genes.
  Each has an escaping of ontology identifiers into HTML-safe strings
  (`sanitizeID`/`desanitizeID`). Each also reads and prints its display
  name `ID | name` (`SOURCE:ID | name` for disorders).
- **Person node** (`Persons.Person`). Its setters and the rules that bind
  them together:
  - NHS numbers are stored without spaces and shown in groups of 3, 3 and 4,
    under the corrected NHS-number test described under Findings (as
    written, a spaced number with an all-zero group is stored verbatim);
  - the disorder, phenotype and gene lists are duplicate-free, and each
    add or remove is reported to its legend;
  - the carrier status follows the disorders;
  - life status, birth date and death date constrain each other.
- **Phenotype and gene legends** (`HPOLegends.HPOLegend`,
  `GeneLegends.GeneLegend`). The term cache, the HGNC identifier map and
  colour assignment. A new entry gets the first colour of a 12-colour
  palette that is not in use. Once the palette is used up, it gets some
  colour that is neither white nor in use.
- **Node menu** (`NodeMenus.NodeMenu`). The per-field `fieldMap`;
  binding a node with `show`, `update` and `hide`; the listener that turns a
  control change into a `setproperty` or `modify` event. Also the debounce
  queue of the two date pickers, and how a radio field hides or disables
  its options.
- **Gen-O reconciliation** (`GenOText`, `GenOSync`). What happens when a
  person's external identifier changes:
  - the patient registry (Gen-O) and the NHS spine are looked up, and
    their answers are parameters here;
  - the person is refilled from what they return;
  - the family cohort calls;
  - the create/update/view button table;
  - the spine's name order and the variant filter and wrap;
  - the phenotype sync payload;
  - the demographics diff shown before an update.

  Whether the person shows an NHS number is decided by the corrected
  NHS-number test throughout; `ZeroGroupFlowAsWritten` shows the one kind
  of number on which the handlers as written behave differently.

Each state-changing operation is a method. Its `ensures` gives the new
state as a specification function of the old one. The lemmas beside it
prove what that function guarantees:
- invariants kept (duplicate-free lists, balanced legends, ordered dates,
  a consistent carrier status);
- round trips;
- the exact effect of each branch.

Dates are abstract instants (`int`, larger is later). JavaScript values
that are compared loosely (`==`) are modelled as a small `Value` type with
JavaScript's `==` rules.

## Model

| member | source | states |
|---|---|---|
| Disorders.SanitizeID | src/script/disorder.js:135-142 | an integer identifier is returned unchanged; any other identifier comes out holding only `[A-Za-z0-9,;_*-]` |
| Disorders.NewDisorder | src/script/disorder.js:12-43 | a disorder with an identifier always constructs (`Ok`) |
| Disorders.SanitizeIdempotent | src/script/disorder.js:135-142 | sanitizing a sanitized identifier changes nothing |
| Disorders.DesanitizeSanitize | src/script/disorder.js:135-148 | desanitize undoes sanitize for identifiers of letters, digits, `,;*-` and spaces |
| Disorders.ParseDisplayNameWithoutSource | src/script/disorder.js:26-38 | `ID \| name` with no colon in the ID yields the default source, the sanitized ID and the name |
| Disorders.ParseDisplayNameWithSource | src/script/disorder.js:26-38 | `SRC:ID \| name` yields source `SRC`, the sanitized ID and the name |
| Disorders.DisplayNameRoundTrip | src/script/disorder.js:74-76 | parsing a disorder's display name back gives the same source, identifier and name |
| Disorders.UnnamedDisorder | src/script/disorder.js:18-41 | without a name, a non-integer ID is named by its non-empty desanitized form, and an integer ID or one whose desanitized form is empty by `loading...` |
| Disorders.MissingIdentifier | src/script/disorder.js:18-27 | without an identifier, construction succeeds exactly when the name is a display name (otherwise the source throws) |
| HPOTerms.SanitizeID | src/script/hpoTerm.js:118-123 | the stored identifier holds only `[A-Za-z0-9,;_*-]` |
| HPOTerms.NewHPOTerm | src/script/hpoTerm.js:11-30 | a term with an identifier always constructs |
| HPOTerms.SanitizeIdempotent | src/script/hpoTerm.js:118-123 | sanitizing is idempotent |
| HPOTerms.DesanitizeSanitize | src/script/hpoTerm.js:118-130 | desanitize undoes sanitize for identifiers of safe characters other than `_`, with no two adjacent colons |
| HPOTerms.ValidIDIsRoundTrippable | src/script/hpoTerm.js:132-135 | every `HP:<digits>` identifier (any case) lies in that round-trip domain |
| HPOTerms.SanitizeValidID | src/script/hpoTerm.js:118-123 | `HP:0001250` is stored as `HP_C_0001250`: the colon becomes `_C_` and nothing else changes |
| HPOTerms.ValidIDRoundTrip | src/script/hpoTerm.js:118-135 | every valid HPO identifier survives sanitize then desanitize |
| HPOTerms.ParseDisplayName | src/script/hpoTerm.js:18-21 | `ID \| name` with no identifier yields the sanitized ID and the name |
| HPOTerms.DisplayNameRoundTrip | src/script/hpoTerm.js:56-58 | a named term parses back from its display name to the same term |
| HPOTerms.UnnamedTerm | src/script/hpoTerm.js:13-24 | without a name, a valid HP identifier or one whose desanitized form is empty gets `loading...`, and any other identifier is named by its desanitized form |
| HPOTerms.MissingIdentifier | src/script/hpoTerm.js:13-21 | without an identifier, construction succeeds exactly when the name is a display name |
| TermIds.PassesFixSafe | src/script/hpoTerm.js:118-123 | every escaping pass leaves an all-safe string unchanged |
| TermIds.SpacesRoundTrip | src/script/disorder.js:139-147 | escaping spaces to `__` is undone by reading `__` back as a space |
| TermIds.ColonsRoundTrip | src/script/hpoTerm.js:121-127 | escaping colons to `_C_` is undone by reading `_C_` back as a colon |
| TermIds.ColonPassHasNoDoubleUnderscore | src/script/hpoTerm.js:121-126 | with no adjacent colons, the colon escapes never form a `__` that would read back as a space |
| Genes.NewGene | src/script/gene.js:11-22 | a given HGNC ID and symbol are kept; a missing ID on a plain symbol becomes `-`; a missing group becomes `''` |
| Genes.DisplayNameRoundTrip | src/script/gene.js:13-51 | a gene whose ID has no `\|` and whose symbol has no ` \| ` parses back from its display name |
| Genes.ParsedGeneRoundTrip | src/script/gene.js:13-51 | any gene read from a string reads back from its own display name |
| Genes.DisplayNameAmbiguous | src/script/gene.js:13-16 | an ID ending in ` \|` splits in the wrong place, so the round trip needs `\|`-free IDs |
| NHSNumbers.IsNHSNumberExactly | src/script/view/person.js:182-208 | the check accepts exactly ten digits, or `ddd ddd dddd` (with the corrected group test) |
| NHSNumbers.AsWrittenAccepted | src/script/view/person.js:182-208 | every identifier the test as written accepts is accepted by the corrected test |
| NHSNumbers.IsNHSNumberAsWrittenExactly | src/script/view/person.js:182-208 | as written, over `Number()` restricted to digit strings: the spaced form is accepted only when no group is all zeros |
| NHSNumbers.CheckNHSNumber | src/script/view/person.js:182-208 | the flag loop over the groups returns exactly the corrected predicate |
| NHSNumbers.StripAccepted | src/script/view/person.js:173-176 | removing the spaces of an accepted number leaves ten digits |
| NHSNumbers.SpacedRoundTrip | src/script/view/person.js:159-176 | the display of a stored number is accepted and strips back to it |
| NHSNumbers.ZeroGroupRejected | src/script/view/person.js:184-193 | a stored number with middle group `000` is accepted, but its display is rejected as written and accepted once corrected |
| NHSNumbers.ZeroGroupRejectedAsWritten | src/script/view/person.js:189-191 | 4010001234 is accepted as written while its display 401 000 1234 is rejected |
| PersonStates.DefaultInv | src/script/view/person.js:42-63 | a new person satisfies the invariant, with a carrier status that agrees with its empty disorders |
| PersonStates.CapitaliseSpec | src/script/view/person.js:124-128 | capitalising upper-cases the first letter, keeps the rest, and is idempotent |
| PersonStates.DateDMYParse | src/script/view/person.js:85-96 | `dd/mm/yyyy` reads back: two digits of day, a slash, two digits of month (counted from 1), a slash, the year |
| PersonStates.SetLifeStatusFields | src/script/view/person.js:362-381 | the life-status setter, field by field |
| PersonStates.SetLifeStatusSpec | src/script/view/person.js:362-381 | an unknown status is ignored; every status but `deceased` clears the death date; `alive` clears gestation; a fetus loses birth date, adoption and childless status; the invariant holds |
| PersonStates.ClearBirthDate | src/script/view/person.js:478-484 | clearing the birth date is always accepted and touches nothing else |
| PersonStates.ClearDeathDate | src/script/view/person.js:518-527 | clearing the death date touches nothing else |
| PersonStates.SetBirthDateSpec | src/script/view/person.js:478-484 | a birth date on or after the death date is refused; any other is stored |
| PersonStates.SetDeathDateSpec | src/script/view/person.js:518-527 | a death date on or before the birth date is refused; an accepted one makes a living person `deceased` |
| PersonStates.AddDisorderSpec | src/script/view/person.js:645-661 | adding keeps the invariant and holds the new disorder, unless it is `affected` joining real ones |
| PersonStates.RemoveDisorderSpec | src/script/view/person.js:669-678 | removing drops exactly that identifier; an absent one changes nothing |
| PersonStates.SetCarrierStatusSpec | src/script/view/person.js:540-574 | invalid statuses are ignored; `''` with real disorders becomes `affected`; `''` drops a lone `affected`; `affected` with no disorder adds it; the status ends consistent with the disorders |
| PersonStates.SetDisordersSpec | src/script/view/person.js:686-695 | every held disorder is removed (last first) before the new ones are added; the list ends settled and the carrier status consistent |
| PersonStates.AddHPOSpec | src/script/view/person.js:727-737 | a new term is appended and reported once; a held one changes nothing |
| PersonStates.RemoveHPOSpec | src/script/view/person.js:745-752 | removing drops exactly that term; an absent one changes nothing |
| PersonStates.SetHPOSpec | src/script/view/person.js:760-768 | ends with the distinct new identifiers in order, after every removal was reported |
| PersonStates.AddGeneSpec | src/script/view/person.js:783-794 | the gene's display name is stored once |
| PersonStates.RemoveGeneSpec | src/script/view/person.js:801-811 | drops exactly the gene named |
| PersonStates.SetGenesSpec | src/script/view/person.js:819-827 | ends with the distinct display names in order, after every removal was reported |
| PersonStates.SetExternalIDSpec | src/script/view/person.js:173-180 | with the corrected test, a valid NHS number is stored as its ten digits, anything else verbatim; the invariant holds |
| PersonStates.ExternalIDRoundTrip | src/script/view/person.js:159-180 | with the corrected test, entering the identifier the person shows, spaced or not, stores what is already stored |
| PersonStates.ZeroGroupDisplayAsWritten | src/script/view/person.js:159-180 | stored 4010001234 is shown as 401 000 1234, which the test as written rejects, so `setExternalID` as written would store the display verbatim; the corrected test strips it back |
| PersonStates.InactiveCarriersSpec | src/script/view/person.js:950-958 | "not affected" is disabled exactly when a real disorder is held; "presymptomatic" exactly for an aborted or miscarried pregnancy |
| LegendLogs.AddTermBalanced | src/script/view/person.js:727-737 | adding never duplicates, reports a new term once, and keeps every legend balanced |
| LegendLogs.RemoveTermBalanced | src/script/view/person.js:745-752 | removing a held term reports it once; an absent one changes nothing |
| LegendLogs.ClearTermsResult | src/script/view/person.js:761-763 | the clearing loop empties the list and reports every entry, last first |
| LegendLogs.ClearTermsBalanced | src/script/view/person.js:761-763 | after clearing, the legend holds no case for this person, and the other legends are as they were |
| PersonTerms.AddDisorderValid | src/script/view/person.js:645-661 | adding a disorder keeps the list duplicate-free, reported, and with `affected` only on its own |
| PersonTerms.RemoveDisorderValid | src/script/view/person.js:669-678 | removing keeps the list consistent and drops exactly that identifier |
| PersonTerms.SettledStep | src/script/view/person.js:645-661 | one more `addDisorder` extends the settled list of the identifiers added |
| PersonTerms.SettledContents | src/script/view/person.js:656-660 | once a real disorder is added, `affected` is gone and every real one is kept |
| PersonTerms.AddDisordersResult | src/script/view/person.js:690-692 | adding to an empty list gives the settled list, with calls only appended |
| PersonTerms.SetDisordersResult | src/script/view/person.js:686-692 | every held disorder is removed and reported before the new ones are added |
| PersonTerms.AddHPOsResult | src/script/view/person.js:764-766 | adding terms to an empty list keeps each distinct identifier once, in first-appearance order |
| PersonTerms.SetHPOResult | src/script/view/person.js:760-766 | every held term is removed and reported before the new ones are added |
| PersonGenes.ShownStable | src/script/view/person.js:784-786 | a gene's display name names the same gene, so a stored name finds itself |
| PersonGenes.AddGeneValid | src/script/view/person.js:783-794 | a gene is never stored twice; a new one is reported once, with its HGNC ID |
| PersonGenes.RemoveGeneValid | src/script/view/person.js:801-811 | drops the gene the string names and reports its symbol once; an absent gene changes nothing |
| PersonGenes.ClearGenesResult | src/script/view/person.js:820-822 | clearing empties the list and reports every symbol, last first, keeping the legends balanced |
| PersonGenes.AddGenesResult | src/script/view/person.js:823-825 | adding to an empty list stores each distinct display name once, in order |
| PersonGenes.SetGenesResult | src/script/view/person.js:819-827 | every stored gene is removed and reported before the new ones are stored |
| Persons.Person.constructor | src/script/view/person.js:27-63 | the default state with the given gender (`U` when none) |
| Persons.Person.SetFirstName | src/script/view/person.js:124-128 | stores the capitalised name and keeps the invariant |
| Persons.Person.SetLastName | src/script/view/person.js:146-151 | stores and returns the capitalised name |
| Persons.Person.SetPhenopacketID | src/script/view/person.js:226-228 | stores the phenopacket ID and nothing else |
| Persons.Person.SetComments | src/script/view/person.js:236-241 | stores the comments and nothing else |
| Persons.Person.SetExternalID | src/script/view/person.js:173-180 | new state is `SetExternalID(old state)`, with the corrected test; the invariant holds |
| Persons.Person.SetBirthDate | src/script/view/person.js:478-484 | new state is `SetBirthDate(old state)` |
| Persons.Person.SetLifeStatus | src/script/view/person.js:362-381 | new state is `SetLifeStatus(old state)`, reached through the date and gestation setters the source calls |
| Persons.Person.SetDeathDate | src/script/view/person.js:518-527 | new state is `SetDeathDate(old state)`, and it returns the death date it ends with |
| Persons.Person.AddDisorder | src/script/view/person.js:645-661 | new state is `AddDisorder(old state)` |
| Persons.Person.RemoveDisorder | src/script/view/person.js:669-678 | new state is `RemoveDisorder(old state)` |
| Persons.Person.SetCarrierStatus | src/script/view/person.js:540-574 | new state is `SetCarrierStatus(old state)` |
| Persons.Person.ClearDisorders | src/script/view/person.js:687-689 | the removal loop, proved against `ClearTerms` |
| Persons.Person.AddDisorderList | src/script/view/person.js:690-692 | the add loop, proved against `AddDisorders` |
| Persons.Person.SetDisorders | src/script/view/person.js:686-695 | new state is `SetDisorders(old state)`; the invariant holds |
| Persons.Person.AddHPO | src/script/view/person.js:727-737 | new state is `AddHPO(old state)` |
| Persons.Person.RemoveHPO | src/script/view/person.js:745-752 | new state is `RemoveHPO(old state)` |
| Persons.Person.ClearHPO | src/script/view/person.js:761-763 | the removal loop, proved against `ClearTerms` |
| Persons.Person.AddHPOList | src/script/view/person.js:764-766 | the add loop, proved against `AddHPOs` |
| Persons.Person.SetHPO | src/script/view/person.js:760-768 | new state is `SetHPO(old state)` |
| Persons.Person.AddGene | src/script/view/person.js:783-794 | new state is `AddGene(old state)` |
| Persons.Person.RemoveGene | src/script/view/person.js:801-811 | new state is `RemoveGene(old state)` |
| Persons.Person.ClearGenes | src/script/view/person.js:820-822 | the removal loop, proved against `PersonGenes.ClearGenes` |
| Persons.Person.AddGeneList | src/script/view/person.js:823-825 | the add loop, proved against `AddGenes` |
| Persons.Person.SetGenes | src/script/view/person.js:819-827 | new state is `SetGenes(old state)` |
| Palettes.Unused | src/script/view/hpoLegend.js:101-109 | a colour is left exactly when it is in the palette and not in use |
| Palettes.UnusedWithout | src/script/view/hpoLegend.js:107-109 | one more `without(color)` removes one more used colour |
| Palettes.PreferredColors | src/script/view/hpoLegend.js:101-109 | the filtering loop returns the unused palette colours in palette order |
| Palettes.FreshColorExists | src/script/view/hpoLegend.js:113-116 | the retry loop can always stop: some colour is neither white nor used |
| Palettes.GenerateColor | src/script/view/hpoLegend.js:96-119 | an existing colour is returned unchanged; otherwise the first unused palette colour; once the palette is used up, a colour neither white nor in use |
| Palettes.AddFreshColor | src/script/view/hpoLegend.js:80-83 | giving a new entry an unused colour keeps the legend's colours distinct |
| Palettes.HandedOutInOrder | src/script/view/hpoLegend.js:101-111 | when the first k palette colours are in use, the next entry gets colour k |
| Palettes.PalettesWellFormed | src/script/view/hpoLegend.js:106 | Magma and Inferno each hold 12 distinct colours and no white |
| HPOLegends.HPOLegend.constructor | src/script/view/hpoLegend.js:15-19 | an empty term cache and no colours |
| HPOLegends.HPOLegend.GetTerm | src/script/view/hpoLegend.js:32-41 | the cache is keyed by the sanitized ID; a cached term is returned as is and the cache is unchanged |
| HPOLegends.HPOLegend.AddCase | src/script/view/hpoLegend.js:51-57 | caches a named term only for a new ID, never replaces one, then registers the case |
| HPOLegends.HPOLegend.GenerateElement | src/script/view/hpoLegend.js:79-87 | colours only a new ID while colours are shown, with a fresh colour (the first unused Magma one when there is one), and fires `hpo:color`; other colours are untouched |
| GeneLegends.GeneLegend.constructor | src/script/view/geneLegend.js:15-20 | an empty HGNC map and no colours |
| GeneLegends.GeneLegend.AddHGNCID | src/script/view/geneLegend.js:33-35 | afterwards `getHGNCID(name)` answers the new ID, and every other name is unchanged |
| GeneLegends.GeneLegend.HGNCID | src/script/view/geneLegend.js:44-46 | defined exactly for the names added |
| GeneLegends.GeneLegend.GenerateElement | src/script/view/geneLegend.js:56-64 | as for phenotypes, with the Inferno palette and `gene:color` |
| NodeMenus.FieldsOfKeys | src/script/view/nodeMenu.js:89-97 | the menu gets an entry exactly for the descriptors whose type has a generator |
| NodeMenus.FieldsOfLast | src/script/view/nodeMenu.js:89-97 | an entry comes from the last such descriptor of its name |
| NodeMenus.FieldsOfFresh | src/script/view/nodeMenu.js:535-543 | a new entry holds `data.default \|\| ''` as both default and current value, and is active |
| NodeMenus.NewFieldsCleared | src/script/view/nodeMenu.js:86-106 | the `hide()` closing the constructor leaves the new fields as built |
| NodeMenus.ClearIdempotent | src/script/view/nodeMenu.js:1006-1013 | clearing twice is clearing once |
| NodeMenus.SetThenClear | src/script/view/nodeMenu.js:1006-1025 | loading a summary takes every defined value from it; clearing afterwards restores defaults and active fields, and only `disabled` remembers the summary |
| NodeMenus.SetCrtIdempotent | src/script/view/nodeMenu.js:1015-1025 | loading the same summary twice is loading it once |
| NodeMenus.Reaction | src/script/view/nodeMenu.js:566-598 | nothing fires exactly while updating, with no node bound, or when the value `==` the node's; anything that fires is a setproperty or a modify |
| NodeMenus.UpdatingIsSilent | src/script/view/nodeMenu.js:566-568 | a menu in the middle of `update` never fires |
| NodeMenus.SameValueIsSilent | src/script/view/nodeMenu.js:576-578 | setting a control back to the node's value fires nothing |
| NodeMenus.RunTimeout | src/script/view/nodeMenu.js:553-559 | a timeout dispatches the last change and empties the queue exactly when the queue length is the one it saw |
| NodeMenus.Counts | src/script/view/nodeMenu.js:550-551 | the queue lengths a burst leaves its timeouts are 1, 2, …, n |
| NodeMenus.BurstDispatchesLast | src/script/view/nodeMenu.js:547-560 | a burst of n changes dispatches only its last change and leaves the queue empty |
| NodeMenus.BurstFromEmpty | src/script/view/nodeMenu.js:547-560 | a burst on an empty queue dispatches its last change only |
| NodeMenus.RadioInactive | src/script/view/nodeMenu.js:1202-1221 | `true` hides the field; an array disables and hides exactly the listed options; a falsy value re-enables every option |
| NodeMenus.RadioDisabled | src/script/view/nodeMenu.js:1255-1268 | `true` hides the field; an array disables exactly the listed options; a falsy value re-enables every option |
| NodeMenus.RadioEmptyListEnables | src/script/view/nodeMenu.js:1202-1221 | an empty array acts like `false` on the options |
| NodeMenus.NodeMenu.constructor | src/script/view/nodeMenu.js:86-106 | builds `FieldsOf(data)` with two empty date queues, hidden and unbound |
| NodeMenus.NodeMenu.GenerateEmptyField | src/script/view/nodeMenu.js:530-545 | writes the descriptor's new entry |
| NodeMenus.NodeMenu.ClearCrtData | src/script/view/nodeMenu.js:1006-1013 | the key loop gives `ClearedFields` of the old map |
| NodeMenus.NodeMenu.SetCrtData | src/script/view/nodeMenu.js:1015-1025 | the key loop gives `SetCrtFields` of the old map and the summary |
| NodeMenus.NodeMenu.Show | src/script/view/nodeMenu.js:914-923 | fires `showmenu`, binds the node, becomes visible and loads the summary |
| NodeMenus.NodeMenu.Hide | src/script/view/nodeMenu.js:925-935 | tells a bound node its widget hid, unbinds it, becomes invisible and clears the fields |
| NodeMenus.NodeMenu.Update | src/script/view/nodeMenu.js:623-634 | binds a given node; reloads the bound node's summary; `_updating` ends unset |
| NodeMenus.NodeMenu.HandleDatePickerChange | src/script/view/nodeMenu.js:547-560 | queues the change and schedules a timeout holding the queue's new length |
| NodeMenus.NodeMenu.RunNextTimeout | src/script/view/nodeMenu.js:553-559 | the oldest timeout fires the last change and `pedigree:change` only when nothing was queued after it |
| NodeMenus.NodeMenu.OnFieldChange | src/script/view/nodeMenu.js:562-604 | records the value, and fires what `Reaction` says: directly for other fields, through the queue for the two date fields |
| NodeMenus.NodeMenu.SetDisabled | src/app.js:287-289 | writes one field's `disabled` and nothing else |
| GenOText.CompareSpec | src/app.js:299-309 | usual names first; between equals, the later start first; 0 when a start is missing; antisymmetric |
| GenOText.CompareTransitive | src/app.js:307-308 | over dated names the comparator is transitive |
| GenOText.CompareNotTransitiveWithoutStart | src/app.js:307-308 | without starts it is not: a ties b, b ties c, yet c precedes a |
| GenOText.PreferredSpec | src/app.js:380-382 | the chosen name is one of the names, usual when any is, and least when all are dated |
| GenOText.KeepVariantOnText | src/app.js:349-351 | on text values, kept exactly for (Likely) pathogenic variants in a primary report |
| GenOText.UndefinedTextDropped | src/app.js:349 | an interpretation without display text is never kept |
| GenOText.WrapFromSpec | src/app.js:358-368 | each wrap step keeps every line fitting and loses no word |
| GenOText.WrapLinesSpec | src/app.js:358-369 | the lines concatenate to the words each followed by a space; the text is the lines joined by CR LF; each line is at most 31 characters unless it holds one longer word |
| GenOText.WrapVariant | src/app.js:357-369 | the wrap loop returns `WrapText` |
| GenOText.VariantsSpec | src/app.js:347-371 | there is variant text exactly when some interpretation passes the filter |
| GenOText.FormatVariants | src/app.js:347-371 | the interpretation loop returns `Variants` |
| GenOText.HPOPayloadSpec | src/app.js:421-437 | three lists, one entry per term, in order, by desanitized ID; every link carries the phenopacket and `PRESENT` |
| GenOText.DiffWithSpec | src/app.js:519-571 | a field gets a row exactly when the record and the node differ on it |
| GenOText.DiffSpec | src/app.js:519-571 | the corrected diff lists exactly the differing fields, and is empty exactly when none differ |
| GenOText.LifeStatusNeverListedAsWritten | src/app.js:534 | as written, the life-status row is never added |
| GenOText.DeceasedMissedAsWritten | src/app.js:534-540 | a deceased record against a living node: empty diff as written, one life-status row corrected |
| GenOText.UpdateGenO | src/app.js:516-591 | the push sequence builds `Diff`; upserts exactly when something changed and the user confirmed |
| GenOText.NoRecordListsSetFields | src/app.js:519-571 | with no record every set name, life status and gender is listed |
| GenOSync.WithButtons | src/app.js:286-289 | sets the three buttons' `disabled` and leaves every other field alone |
| GenOSync.DisableGenOButtons | src/app.js:286-293 | the three writes, then a reload of the bound node when asked |
| GenOSync.RefreshCoherent | src/app.js:597-609 | update and view go together, and create is offered exactly for an NHS number (corrected test) without a phenopacket |
| GenOSync.RefreshGenOButtons | src/app.js:597-609 | only for a person, applies `RefreshButtons` (corrected test) and reloads the menu |
| GenOSync.ShownNHSNumber | src/app.js:314-315 | with the corrected test, the displayed form is accepted exactly when the stored number is, and strips back to it |
| GenOSync.ZeroGroupFlowAsWritten | src/app.js:597-609 | for stored 4010001234 the refresh as written disables every button, while under the corrected test the person shows an NHS number (so the lookup of app.js:314 and the creation of app.js:491 go ahead) and gets record buttons |
| GenOSync.ClearedDemographicsSpec | src/app.js:274-284 | an unnamed living person of unknown gender with no dates; the HPO terms are cleared only when asked |
| GenOSync.ClearNodeDemographics | src/app.js:274-284 | the setter calls give `ClearedDemographics` |
| GenOSync.WithVitalsSpec | src/app.js:328-340 | the birth date is taken; the death date when it is after the birth; deceased when the record says so or a death date was taken |
| GenOSync.LoadVitals | src/app.js:328-340 | the setter calls give `WithVitals` |
| GenOSync.CollectTerms | src/app.js:342-345 | the feature loop builds `FeatureTerms` |
| GenOSync.RegistryStateSpec | src/app.js:318-375 | a registry hit fills names, phenopacket, sex, vitals, HPO terms and variant comments from the record; the ID, disorders and genes are kept |
| GenOSync.SpineStateSpec | src/app.js:378-398 | a spine hit fills names from the preferred name, then gender and vitals, and keeps the HPO terms |
| GenOSync.LoadRegistryRecord | src/app.js:319-373 | the setter calls give `RegistryState` |
| GenOSync.LoadSpineRecord | src/app.js:379-397 | the setter calls give `SpineState` |
| GenOSync.ReconciledSpec | src/app.js:311-406 | the phenopacket is always cleared; the lookup runs when the corrected test accepts the display; a registry hit takes its phenopacket and terms; a spine hit keeps the terms; the ID, disorders and genes are never touched |
| GenOSync.CohortCallsSpec | src/app.js:321-324 | on a lookup made under the corrected test, the old cohort is left only on a hit whose phenopacket differs from a non-empty old one; the record's individual joins last |
| GenOSync.RefreshAgreesWithLookup | src/app.js:597-609 | refreshing later gives the buttons the lookup left, when a registry record carries a phenopacket (both with the corrected test) |
| GenOSync.LoadRegistryHit | src/app.js:318-375 | cohort calls, record loaded, record buttons |
| GenOSync.LookUpNHSNumber | src/app.js:315-402 | loads what was found, switches the buttons, reloads the menu |
| GenOSync.UpdateNodeOnExternalIDChange | src/app.js:311-406 | new state `Reconciled`, calls `CohortCalls`, buttons `LookupButtons` (or all disabled without an NHS number by the corrected test) |
| GenOSync.CreateGenO | src/app.js:490-514 | with an NHS number by the corrected test, stores the new phenopacket and shows the record buttons, whatever phenotypes the person holds (corrected, see Findings); otherwise changes nothing |
| GenOSync.CreateGenOAsWritten | src/app.js:490-514 | as written, with the NHS test as written: a record is created exactly when that test accepts the display, and the record buttons are then shown only for a person without phenotypes, since the HPO sync throws first |
| GenOSync.CreateAgreesWithoutPhenotypes | src/app.js:421-426 | the handler as written and corrected agree exactly when the corrected test rejects the display, or the test as written accepts it and the person has no phenotypes; whatever the handler as written switches, the corrected one does too |
| GenOSync.ZeroGroupCreateAsWritten | src/app.js:490-514 | for stored 4010001234 without phenotypes the handler as written creates nothing, and the corrected one shows the record buttons |
| GenOSync.PhenotypeHolderKeepsButtonsAsWritten | src/app.js:421-426 | a person with an NHS number and one phenotype keeps the old buttons as written, and gets the record buttons once corrected |
| GenOSync.CreateThenRefresh | src/app.js:597-609 | after creation (corrected test), refreshing keeps the record buttons |

## Left out

- Persons.Person: the source keeps each property in its own field. Here one record field `state` holds them all, so each setter's whole effect is one function of the old record.
- Persons.Person: twins, `evaluated`, lost contact and `remove()` are not modelled. They are not part of the core.
- Persons.Person.SetGender: `setGender` belongs to the abstract person, which is not part of this model. It is a plain assignment here.
- `isInt` (helpers, not part of this model) is taken as a non-empty string of decimal digits.
- JavaScript's `Number()` is modelled on strings of decimal digits only. Hexadecimal, signs, exponents, decimal points and surrounding spaces are treated as not a number. Likewise an object is never loosely equal (`==`) to a primitive here, where JavaScript first converts the object (`[] == ""` holds); no comparison the model covers meets that case.
- Dates are abstract integers. `Date` parsing, time zones, `toDateString` and `toISO8601` are inputs. The ISO form the diff compares is a `Value` of the demographics. Gestation age from the wall clock and negative years are left out.
- The base `Legend` class is not part of this model. Its `addCase`/`removeCase` counting is the call trace each person keeps, and balance is proved over that trace. Balance is a count of calls per key: two stored genes with the same symbol (say `HGNC:1 | BRCA1` and `HGNC:2 | BRCA1`) make two `addCase` calls for one (symbol, node) pair, and how the legend itself treats such a repeated pair is not modelled.
- `Raphael.getColor()` and `Math.random()` are a nondeterministic choice of any colour that ends the retry loop.
- The DOM: controls are abstract slots, and `_setFieldValue`, `reposition`, the pickers, tabs and click-outside handling are left out.
- NodeMenus.NodeMenu.RunNextTimeout: the two-second timeouts are assumed to run in the order they were scheduled, since they all wait equally long.
- NodeMenus.NodeMenu.OnFieldChange requires the field in the node's summary. The source reads `getSummary()[name].value` and would throw otherwise.
- The button-action listener (`pedigree:node:buttonaction`) and the `viewGenO` `window.open` are left out. They are plain event relays.
- The node summary is a parameter wherever the menu reloads it, since `getSummary` queries the graph.
- `editor.getGraph().setProperties`, `alert`, `confirm` and the GraphQL calls are left out: `upsertIndividual`, `insertPhenopacket`, `insertInterpretation`, `insertCaseHistory`, the HPO sync and the cohort mutations. Lookups are parameters; created IDs and the user's answer are inputs; the cohort calls are a returned list.
- The cohort identifier constant and the environment configuration are left out.
- GenOText.PreferredSpec: `names.sort(sortPatientName)[0]` is modelled as the first least name. Without starts the comparator is not transitive, so a real sort may choose differently; that case is only proved not to be an order.
- A missing name from the spine is stored as the empty name.
- GenOSync.RegistryStateSpec: registry fields are strings; a `null` `first_name`, `last_name`, `phenopacket_id` or `sex` from the registry is stored by the source as `null` (app.js:325-327, 341), which the model does not represent.
- GenOSync.LoadRegistryRecord: takes the same string-only record, so the `null` registry fields of `RegistryStateSpec` are not modelled.
- PersonStates.CapitaliseSpec: upper-cases only the ASCII letters a-z; JavaScript's `toUpperCase` maps all of Unicode, so `élise` becomes `Élise` there and stays `élise` here, and `ß` becomes `SS`, changing the length, which is not modelled.
- Persons.Person.SetFirstName: capitalises with the ASCII-only upper-casing of `CapitaliseSpec`.
- Persons.Person.SetLastName: capitalises with the ASCII-only upper-casing of `CapitaliseSpec`.
- GenOText.WrapLinesSpec: lengths here count Unicode code points, JavaScript counts UTF-16 units, so a word outside the Basic Multilingual Plane counts once here and twice at app.js:362. The same holds for Disorders.SanitizeID and HPOTerms.SanitizeID, where the source's per-unit replacement writes two `__` for such a character and the model one.
- An interpretation whose `display_text` is `null` would throw in the source. The model has only defined and undefined text.
- Races between overlapping reconciliations are not modelled.
- GenOText.UpdateGenO: uses the corrected life-status test. The test as written is `DiffAsWritten` (see Findings).
- NHSNumbers.CheckNHSNumber: checks every group of the spaced form as a digit string, which is the corrected test (see Findings). The test as written is `IsNHSNumberAsWritten`.
- NHSNumbers.CheckNHSNumber: like the test as written, takes `Number()` on digit strings only; the source's `Number()` also accepts signs, decimal points, hexadecimal and inner spaces, so it accepts `-123456789`, `1234567.00`, `0x499602D2` and `+12 345 6789`, which the model rejects.
- NHSNumbers.IsNHSNumberAsWrittenExactly: is "as written" only over digit strings; the same `Number()` inputs (`-123456789`, `1234567.00`, `0x499602D2`, `+12 345 6789`) pass the source's test and fail the model's.
- PersonStates.SetExternalID: uses the corrected test, so `401 000 1234` is stored as `4010001234`; as written (person.js:173-180) it is stored verbatim. `ZeroGroupDisplayAsWritten` exhibits the case.
- PersonStates.SetExternalIDSpec: states the corrected storage rule; as written, a spaced number with an all-zero group is stored verbatim.
- PersonStates.ExternalIDRoundTrip: holds with the corrected test only; as written it fails for a stored number with an all-zero group, whose display is stored verbatim (`ZeroGroupDisplayAsWritten`).
- PersonStates.ExternalID: groups the stored number by the corrected test; on the ten-digit strings it stores, the two tests agree.
- PersonStates.Inv: its clause that an accepted identifier is stored compact uses the corrected test; as written, `401 000 1234` is stored verbatim and the corrected test accepts it, so the source does not keep that clause.
- Persons.Person.SetExternalID: calls the corrected `CheckNHSNumber`, with the same difference as `PersonStates.SetExternalID`.
- GenOSync.ShowsNHSNumber: is the corrected test on the display; app.js:314, 491 and 599 apply the test as written, which rejects the display of a stored number with an all-zero group (`ZeroGroupFlowAsWritten`).
- GenOSync.ShownNHSNumber: the equivalence with the stored number holds for the corrected test only.
- GenOSync.RefreshButtons: chooses by the corrected test; as written (`RefreshButtonsAsWritten`) a stored number with an all-zero group gets every button disabled.
- GenOSync.RefreshCoherent: speaks of `RefreshButtons`, so "an NHS number" means the corrected test.
- GenOSync.RefreshGenOButtons: branches on the corrected `CheckNHSNumber`; for a stored number with an all-zero group the source disables every button instead.
- GenOSync.Reconciled: looks a person up when the corrected test accepts the display; for a stored number with an all-zero group app.js:314 makes no lookup and only disables the buttons.
- GenOSync.ReconciledSpec: describes the corrected flow of `Reconciled`.
- GenOSync.CohortCalls: on a stored number with an all-zero group the corrected flow may join and leave cohorts, where the source makes no call.
- GenOSync.CohortCallsSpec: describes the calls of the corrected flow.
- GenOSync.LookupButtons: applies to lookups the corrected test lets through.
- GenOSync.RefreshAgreesWithLookup: relates the corrected refresh to the corrected lookup.
- GenOSync.UpdateNodeOnExternalIDChange: looks up a stored number with an all-zero group; as written (app.js:314, 403-404) it only disables the three buttons.
- GenOSync.CreateGenO: creates a record for a stored number with an all-zero group; as written (app.js:491, 511) it alerts and creates nothing.
- GenOSync.CreateGenO: switches to the record buttons for a person holding phenotypes; as written, `updateExternalHPO` (app.js:498, 426) calls `getID()` on the identifier strings `getHPO()` returns, throws, and the buttons stay as they were (`CreateGenOAsWritten`, see Findings).
- GenOSync.CreateThenRefresh: rests on the corrected `ShowsNHSNumber`.
- GenOSync.CreateThenRefresh: speaks of the phenopacket stored by creation; as written, for a person holding phenotypes the phenopacket is stored but the handler stops before showing the record buttons, so only a later refresh shows them.

## Findings

| source | as written | input that shows it | evidently intended | confidence | as-written member | corrected member |
|---|---|---|---|---|---|---|
| src/script/view/person.js:189-191 | each group of a spaced NHS number must be a positive integer | 4010001234 is accepted and stored, but its display 401 000 1234 (which app.js checks) is rejected because `000` is not positive | every group a string of digits, so the display of any stored number is accepted | medium, not executed | NHSNumbers.ZeroGroupRejectedAsWritten | NHSNumbers.IsNHSNumberExactly |
| src/app.js:498 | `updateExternalHPO` is given `node.getHPO()`, which holds identifier strings (person.js:733), and calls `hpo.getID()` on each (app.js:426) | a person with an NHS number and one HPO term: the phenopacket is stored, then a TypeError stops the handler before the cohort call and the button switch | the person's terms are sent and the record buttons shown | high, not executed | GenOSync.PhenotypeHolderKeepsButtonsAsWritten | GenOSync.CreateGenO |
| src/app.js:534 | `a != b == 'deceased'` parses as `(a != b) == 'deceased'`, a boolean loosely compared with a string | Gen-O says deceased, the node is alive, all else equal: no row, "nothing to update" | a row whenever Gen-O's flag disagrees with the node being deceased | high, not executed | GenOText.DeceasedMissedAsWritten | GenOText.DiffSpec |
