# HAPI FHIR model scanner and golden-resource link merge, in Dafny

This project models two pieces of HAPI FHIR.

The first is `ModelScanner`. It turns a set of annotated model classes into
the runtime definitions the FHIR context uses:

- It classifies each class by its type-level annotations: `@ResourceDef`,
  `@DatatypeDef`, `@CodeTableDef` and `@Block`.
- It builds one element definition per class.
- It walks the declared fields of the class and of every structured
  ancestor into ordered child definitions.
- It queues every class those children refer to, and rescans in rounds
  until nothing new is queued.

The second is the link side of `GoldenResourceMergerSvcImpl`. When one golden
resource is merged into another:

- the links of the deactivated resource move to the surviving one, with
  MANUAL links taking precedence over AUTO ones;
- the leftover AUTO links are deleted;
- a MANUAL `REDIRECT` link records the merge.

Modules, in dependency order:

- `Results` (`results.dfy`): `Option` and `Result`. Every
  `ConfigurationException` and `InvalidRequestException` becomes an `Err`.
- `Ordering` (`ordering.dfy`): ascending iteration over finite integer sets.
  This stands in for `TreeMap.firstKey`, `TreeSet` iteration, and the
  iteration orders the model fixes, listed below.
- `Metamodel` (`metamodel.dfy`): the input and output vocabulary.
  - Reflection is replaced by a table `Classpath.types`. For each class it
    gives the interfaces it is assignable to, its annotations, its
    superclass and its declared fields.
  - Classes absent from the table behave like a plain Java class.
  - `Universe` requires every superclass to be numbered below its subclass,
    so the class hierarchy is acyclic.
- `Introspector` (`introspector.dfy`): the per-field loop of
  `scanCompositeElementForChildren`, `determineElementType` and `addScanAlso`.
- `Flattener` (`flattener.dfy`): the ancestor walk, the relocation of
  unordered children, and the merge of the element and extension maps.
- `Scanner` (`scanner.dfy`): `scan`, the four per-kind scans, and the
  constructor's worklist.
- `GoldenMerge` (`links.dfy`): the link table as a map from link id to
  record, and the merge over it.

The central results:

- `Scanner.ScanModelSound`: a successful scan registers well-formed
  definitions, each holding exactly the children the scan of its class
  yields. It indexes resources under distinct names, and is closed under the
  classes its children refer to.
- `GoldenMerge.MergeGoldenResourceLinksSpec`: the loop over from-links fails
  exactly when a MANUAL link meets a MANUAL link with another match result.
  Otherwise its result equals `MergedStore`, a link-by-link reference
  definition of the precedence rule.

Iteration orders the source leaves to a `HashSet` or to the database are
fixed as follows:

- the rounds of the scanner visit classes in ascending class id;
- `findEmpiLinksByGoldenResource` returns links in ascending link id.

The scanner's proofs hold for every input table. The merge's results are
stated through `FindFirstLinkWithMatchingTarget` over that ordered list.

### Behaviour of the code that the model keeps

- **Several annotations on one class.** `scan` (ModelScanner.java:117-166)
  checks each type-level annotation in turn and runs the scan of every one
  that is present; nothing rejects a class carrying more than one
  (`Scanner.ScanAccepts`, and `Scanner.DoublyAnnotatedAccepted` for a class
  with both `@ResourceDef` and `@Block`). The last definition built stays in
  the class map, and the resource-name index keeps the resource definition.
  On success, `Scanner.DefinedAs` states this precedence: block, then
  datatype, then resource.
- **Unknown orders.** The order key of a child without an order
  (ModelScanner.java:281-288) moves one below the sentinel when the sentinel
  is taken, and no further. A third unordered child in the same map is
  therefore a duplicate-order error. `Introspector.ThirdUnknownOrderRejected`
  proves this.
- **Relocation.** Relocation applies to every negative order key, not only
  the sentinel. An explicitly negative `identifier` is moved as well, and any
  other negative key is fatal.
- **Blocks and composite datatypes.** These have no identifier order. An
  unordered `identifier` in one of them ends in a `NullPointerException`
  (`NullIdentifierOrder`).
- **Negative `identifierOrder`.** In a resource with a negative
  `identifierOrder` and an unordered `identifier`, the relocated `identifier`
  lands on a key the loop takes again. The loop then runs forever
  (`Diverges`), unless a key below the identifier order holds another
  element: that element is taken first and fails (`UnplaceableElement`).
- **Overwritten child.** A child with an explicit order equal to the
  identifier order is silently overwritten by the relocated `identifier`.
- **Interfaces.** Collecting the ancestors asks each class for its
  superclass. An interface has none, so scanning the children of an
  interface ends in a `NullPointerException` (`InterfaceInChain`).
- **`@Choice` with `@Extension`.** Such a field becomes a choice child stored
  in the extension map. The merge casts every extension-map child to the
  extension child type, so the scan ends in a `ClassCastException`
  (`ChoiceInExtensionMap`).
- **Code tables.** A class annotated only with `@CodeTableDef` is accepted
  by `scan` but never registered, because `scanCodeTable` does nothing.

## Model

| member | source | states |
|---|---|---|
| Ordering.Least | hapi-fhir-base/src/main/java/ca/uhn/fhir/context/ModelScanner.java:222-223 | the first key of a non-empty key set is in the set and below or equal to every other key |
| Ordering.Ascending | hapi-fhir-base/src/main/java/ca/uhn/fhir/context/ModelScanner.java:231-235 | the union of the order keys is visited strictly ascending, each key exactly once and nothing else |
| Introspector.Discoverable | hapi-fhir-base/src/main/java/ca/uhn/fhir/context/ModelScanner.java:104-109 | `addScanAlso` queues exactly the non-interface classes it is handed |
| Introspector.ElementType | hapi-fhir-base/src/main/java/ca/uhn/fhir/context/ModelScanner.java:387-395 | a `List` field yields its type argument; any other collection field fails; every other field yields its declared type; a `List` without a class argument fails (the cast error) |
| Introspector.OrderKey | hapi-fhir-base/src/main/java/ca/uhn/fhir/context/ModelScanner.java:281-288 | an explicit order is kept; an unknown order moves one below the sentinel exactly when the sentinel is already taken in that map |
| Introspector.Dispatch | hapi-fhir-base/src/main/java/ca/uhn/fhir/context/ModelScanner.java:304-381 | the child kind follows the precedence choice, extension, resource reference, block, datatype; a reference without `@ChildResource`, a codeable concept on a non-coded type and any other type are each their own error, each in both directions, and they are the only failures; a datatype that is neither reference nor block, with no codeable concept it cannot carry, always becomes a primitive or composite child; every kind carries the declared bounds, a choice its choice types, an extension its url and the element type, a reference the `@ChildResource` types, a block the element type |
| Introspector.IntrospectField | hapi-fhir-base/src/main/java/ca/uhn/fhir/context/ModelScanner.java:250-384 | a narrative field is appended to the definition directly; a field without `@Child` changes nothing; a taken order key is fatal, then a repeated name; with both free the step succeeds exactly when the element type resolves and the kind dispatch succeeds, passes their error on, and stores exactly that child under one new key of the chosen map; the name is recorded and the queues grow by what the child refers to |
| Introspector.IntrospectFieldConsistent | hapi-fhir-base/src/main/java/ca/uhn/fhir/context/ModelScanner.java:296-302 | one field keeps names unique across both maps, the maps free of narratives and every referred class queued, and takes nothing back |
| Introspector.WalkFieldsConsistent | hapi-fhir-base/src/main/java/ca/uhn/fhir/context/ModelScanner.java:249-385 | the whole field loop preserves those invariants |
| Introspector.WalkFieldsAppend | hapi-fhir-base/src/main/java/ca/uhn/fhir/context/ModelScanner.java:218-220 | walking two field lists in sequence equals walking their concatenation, errors included |
| Introspector.WalkFieldsRecords | hapi-fhir-base/src/main/java/ca/uhn/fhir/context/ModelScanner.java:296-302 | after the loop, every child field's name is recorded and its order (or the sentinel) is taken in its map |
| Introspector.WalkFieldsGrows | hapi-fhir-base/src/main/java/ca/uhn/fhir/context/ModelScanner.java:315-383 | the name set and the keys of both maps only grow during the loop, and a child once stored keeps its key |
| Introspector.WalkFieldsPlaces | hapi-fhir-base/src/main/java/ca/uhn/fhir/context/ModelScanner.java:315-383 | after a successful loop, every child field built its child, and that child is stored in the map the field chose |
| Introspector.WalkFieldsIndependent | hapi-fhir-base/src/main/java/ca/uhn/fhir/context/ModelScanner.java:249-385 | the loop succeeds, fails with the same error, and records the same names and children whatever classes were queued and code tables collected before it |
| Introspector.DuplicateNameRejected | hapi-fhir-base/src/main/java/ca/uhn/fhir/context/ModelScanner.java:300-302 | two child fields with one name, anywhere in the list, make the loop fail |
| Introspector.DuplicateOrderRejected | hapi-fhir-base/src/main/java/ca/uhn/fhir/context/ModelScanner.java:296-298 | two child fields with one explicit order in the same map make the loop fail |
| Introspector.ThirdUnknownOrderRejected | hapi-fhir-base/src/main/java/ca/uhn/fhir/context/ModelScanner.java:286-298 | a third unordered child field in the same map makes the loop fail |
| Introspector.LaterUnknownOrderRejected | hapi-fhir-base/src/main/java/ca/uhn/fhir/context/ModelScanner.java:281-298 | once the sentinel key and the key below it are taken in a map, a later unordered child field of that map makes the loop fail |
| Flattener.Chain | hapi-fhir-base/src/main/java/ca/uhn/fhir/context/ModelScanner.java:207-216 | the ancestor list ends with the class itself, each entry is the superclass of the next, and the oldest has no structured superclass |
| Flattener.WalkLevelsIsOneWalk | hapi-fhir-base/src/main/java/ca/uhn/fhir/context/ModelScanner.java:218-220 | walking the ancestors oldest-first with shared state equals one walk over all their declared fields |
| Flattener.ChainDuplicateNameRejected | hapi-fhir-base/src/main/java/ca/uhn/fhir/context/ModelScanner.java:203-220 | a name declared twice anywhere in the ancestor chain fails the scan of the class |
| Flattener.ChainDuplicateOrderRejected | hapi-fhir-base/src/main/java/ca/uhn/fhir/context/ModelScanner.java:204-220 | an explicit order declared twice in one map anywhere in the ancestor chain fails the scan of the class |
| Flattener.ChoiceExtensionRejected | hapi-fhir-base/src/main/java/ca/uhn/fhir/context/ModelScanner.java:231-244 | a `@Choice` field that also carries `@Extension`, anywhere in the ancestor chain, makes the scan of the class fail |
| Flattener.RelocateOutcome | hapi-fhir-base/src/main/java/ca/uhn/fhir/context/ModelScanner.java:222-229 | relocation succeeds exactly when no key is negative, or all negative keys hold `identifier` and the identifier order is present and non-negative; the missing order is the null-key error and a negative order the endless loop |
| Flattener.RelocateShape | hapi-fhir-base/src/main/java/ca/uhn/fhir/context/ModelScanner.java:222-229 | after relocation no key is negative, every other non-negative entry is kept, and `identifier` sits at the identifier order |
| Flattener.RelocateDistinct | hapi-fhir-base/src/main/java/ca/uhn/fhir/context/ModelScanner.java:222-229 | relocation keeps the children's names distinct |
| Flattener.MergeSound | hapi-fhir-base/src/main/java/ca/uhn/fhir/context/ModelScanner.java:231-244 | the merged list is ascending by key with the element child before the extension child at a shared key, holds every child of both maps, and holds nothing else |
| Flattener.SlotsFromMaps | hapi-fhir-base/src/main/java/ca/uhn/fhir/context/ModelScanner.java:235-244 | every emitted slot sits at a visited key and holds exactly the child its map has there |
| Flattener.SlotsOrdered | hapi-fhir-base/src/main/java/ca/uhn/fhir/context/ModelScanner.java:235-244 | visiting ascending keys yields ascending slots, element before extension |
| Flattener.SlotsComplete | hapi-fhir-base/src/main/java/ca/uhn/fhir/context/ModelScanner.java:235-244 | every visited key's element and extension child is emitted |
| Flattener.MergedMembersSound | hapi-fhir-base/src/main/java/ca/uhn/fhir/context/ModelScanner.java:231-244 | the merged children are distinctly named and every class they refer to is queued |
| Flattener.QueuedNoInterfaces | hapi-fhir-base/src/main/java/ca/uhn/fhir/context/ModelScanner.java:104-109 | no child ever queues an interface |
| Flattener.WalkFieldsNoInterfaces | hapi-fhir-base/src/main/java/ca/uhn/fhir/context/ModelScanner.java:104-109 | the whole field loop never queues an interface |
| Flattener.WalkChainSound | hapi-fhir-base/src/main/java/ca/uhn/fhir/context/ModelScanner.java:207-220 | the chain walk keeps the walk invariants and only grows the scanner-wide queues |
| Flattener.ScanChildrenSound | hapi-fhir-base/src/main/java/ca/uhn/fhir/context/ModelScanner.java:202-246 | the children added are narratives first, then distinctly named ordinary children, every class they refer to queued, and every extension member an extension definition; the queues only grow and stay free of interfaces |
| Flattener.ScanChildren | hapi-fhir-base/src/main/java/ca/uhn/fhir/context/ModelScanner.java:202-246 | scanning the children of an interface fails on the missing superclass before any field is read; otherwise the walk's error, then the relocation's, then the failing cast of a non-extension child in the extension map are passed on, and with none of these the scan succeeds; a success means the chain walk and the relocation succeeded and the extension map holds only extension definitions |
| Flattener.ScanChildrenMembers | hapi-fhir-base/src/main/java/ca/uhn/fhir/context/ModelScanner.java:202-246 | the children of a class do not depend on the scanner-wide sets the scan starts from: same success, same error, same members |
| Flattener.ExtensionMembersDeclared | hapi-fhir-base/src/main/java/ca/uhn/fhir/context/ModelScanner.java:238-243 | when the extension map holds only extension definitions, every `addExtension` call is handed one |
| Scanner.ScanResource | hapi-fhir-base/src/main/java/ca/uhn/fhir/context/ModelScanner.java:418-440 | a blank name fails; a name already taken by another class fails; the same class again changes nothing; for a new name the scan succeeds exactly when the class's children scan, and passes their error on; on success only this class's entry changes, to a resource definition under that name holding exactly the class's children, and the name index gains it |
| Scanner.ScanCompositeDatatype | hapi-fhir-base/src/main/java/ca/uhn/fhir/context/ModelScanner.java:188-199 | a blank name fails; otherwise the scan succeeds exactly when the class's children scan, and passes their error on; on success only this class's entry changes, to a composite definition holding exactly the class's children, and the name index is untouched |
| Scanner.ScanPrimitiveDatatype | hapi-fhir-base/src/main/java/ca/uhn/fhir/context/ModelScanner.java:397-416 | fails exactly on a blank name; the XHTML type gets the narrative variant and every other type the plain primitive; nothing is queued |
| Scanner.ScanBlock | hapi-fhir-base/src/main/java/ca/uhn/fhir/context/ModelScanner.java:170-182 | a blank name fails; otherwise the scan succeeds exactly when the class's children scan, and passes their error on; on success only this class's entry changes, to a block definition holding exactly the class's children |
| Scanner.Scan | hapi-fhir-base/src/main/java/ca/uhn/fhir/context/ModelScanner.java:111-115 | scanning a class that already has a definition changes nothing |
| Scanner.ScanClassifies | hapi-fhir-base/src/main/java/ca/uhn/fhir/context/ModelScanner.java:117-166 | a successful scan means the class carries a recognised annotation and implements the interface each of its annotations demands; no annotation at all is an error, and so is `@ResourceDef` without `IResource`; with no earlier annotation, `@DatatypeDef`, `@CodeTableDef` and `@Block` without their interfaces are each their own error |
| Scanner.ScanAccepts | hapi-fhir-base/src/main/java/ca/uhn/fhir/context/ModelScanner.java:117-166 | a new class is accepted exactly when it carries a recognised annotation, every annotation is backed by its interface, and the scan of every present annotation can succeed; the number of annotations is not limited |
| Scanner.DoublyAnnotatedAccepted | hapi-fhir-base/src/main/java/ca/uhn/fhir/context/ModelScanner.java:117-166 | a class with both `@ResourceDef` and `@Block` is accepted, ending as a block definition in the class map and as a resource definition in the name index |
| Scanner.ResourceStepSound | hapi-fhir-base/src/main/java/ca/uhn/fhir/context/ModelScanner.java:117-125 | the resource step either leaves the state alone or registers a fresh resource name |
| Scanner.ScanSound | hapi-fhir-base/src/main/java/ca/uhn/fhir/context/ModelScanner.java:111-167 | a scan keeps the registry well-formed, changes only the scanned class's entry, registers a new class exactly when it has a definition-building annotation, and queues something only while registering that class |
| Scanner.ScanSetSound | hapi-fhir-base/src/main/java/ca/uhn/fhir/context/ModelScanner.java:68-70 | one round keeps existing definitions, leaves every class of the round scanned, and grows the queue only if it registered something new |
| Scanner.ScanSetCloses | hapi-fhir-base/src/main/java/ca/uhn/fhir/context/ModelScanner.java:68-75 | after a round, every class a registered child refers to is registered, queued for the next round, or has nothing to define |
| Scanner.RoundsSound | hapi-fhir-base/src/main/java/ca/uhn/fhir/context/ModelScanner.java:67-79 | the rounds end with an empty queue, a well-formed registry closed under every class a child refers to, and every class handed in scanned |
| Scanner.ScanModelSound | hapi-fhir-base/src/main/java/ca/uhn/fhir/context/ModelScanner.java:60-79 | after a successful construction every definition is registered as its annotations say and holds exactly its class's children; the name index holds resource definitions under their own names, each holding its class's children, and every resource is indexed under its name, by the very definition the class map holds when no later annotation replaced it; every class a child refers to is defined unless it has nothing to define; the roots and the three library types are annotated, consistent and, where definable, defined |
| Scanner.UnannotatedRootRejected | hapi-fhir-base/src/main/java/ca/uhn/fhir/context/ModelScanner.java:164-166 | a root without any recognised annotation makes construction fail |
| Scanner.ResourceNamesDistinct | hapi-fhir-base/src/main/java/ca/uhn/fhir/context/ModelScanner.java:426-431 | two distinct registered resource classes never share a resource name |
| GoldenMerge.LinksByGolden | hapi-fhir-jpaserver-empi/src/main/java/ca/uhn/fhir/jpa/empi/svc/GoldenResourceMergerSvcImpl.java:117-118 | the list holds exactly the stored links of that golden resource, each once, as stored |
| GoldenMerge.FindFirstLinkWithMatchingTarget | hapi-fhir-jpaserver-empi/src/main/java/ca/uhn/fhir/jpa/empi/svc/GoldenResourceMergerSvcImpl.java:151-155 | nothing is found exactly when no link has that target; otherwise the result is the first such link in list order |
| GoldenMerge.MergeOne | hapi-fhir-jpaserver-empi/src/main/java/ca/uhn/fhir/jpa/empi/svc/GoldenResourceMergerSvcImpl.java:121-147 | an unmatched from-link moves; an AUTO one whose target is matched stays; a MANUAL one deletes a matching AUTO to-link and moves, conflicts with a MANUAL one of another match result, and otherwise moves |
| GoldenMerge.MergeLoopFails | hapi-fhir-jpaserver-empi/src/main/java/ca/uhn/fhir/jpa/empi/svc/GoldenResourceMergerSvcImpl.java:121-148 | the loop succeeds exactly when no from-link conflicts |
| GoldenMerge.MergeLoopStore | hapi-fhir-jpaserver-empi/src/main/java/ca/uhn/fhir/jpa/empi/svc/GoldenResourceMergerSvcImpl.java:116-149 | the loop's table equals the link-by-link reference table, whatever the order of the saves and deletes |
| GoldenMerge.MergeLoopKeys | hapi-fhir-jpaserver-empi/src/main/java/ca/uhn/fhir/jpa/empi/svc/GoldenResourceMergerSvcImpl.java:121-148 | the loop only saves and deletes existing links, so it never adds a link id |
| GoldenMerge.MergeGoldenResourceLinksSpec | hapi-fhir-jpaserver-empi/src/main/java/ca/uhn/fhir/jpa/empi/svc/GoldenResourceMergerSvcImpl.java:116-149 | merging two distinct golden resources fails exactly on a conflict, and otherwise yields the reference table |
| GoldenMerge.LeftOnFromAreAuto | hapi-fhir-jpaserver-empi/src/main/java/ca/uhn/fhir/jpa/empi/svc/GoldenResourceMergerSvcImpl.java:116-149 | after the link merge, every link still on the from-resource is AUTO |
| GoldenMerge.LeftBehindAreAuto | hapi-fhir-jpaserver-empi/src/main/java/ca/uhn/fhir/jpa/empi/svc/GoldenResourceMergerSvcImpl.java:121-148 | in the reference table, with no conflict, every link still on the from-resource is AUTO |
| GoldenMerge.ManualFromLinkMoves | hapi-fhir-jpaserver-empi/src/main/java/ca/uhn/fhir/jpa/empi/svc/GoldenResourceMergerSvcImpl.java:128-147 | every MANUAL from-link ends on the to-resource, otherwise unchanged |
| GoldenMerge.ManualMoves | hapi-fhir-jpaserver-empi/src/main/java/ca/uhn/fhir/jpa/empi/svc/GoldenResourceMergerSvcImpl.java:128-147 | in the reference table, with no conflict, every MANUAL from-link is kept and points at the to-resource |
| GoldenMerge.DeleteAutoSpec | hapi-fhir-jpaserver-empi/src/main/java/ca/uhn/fhir/jpa/empi/svc/GoldenResourceMergerSvcImpl.java:94-101 | deleting the listed AUTO links one by one removes exactly those and keeps every other record |
| GoldenMerge.RemoveTargetLinksSpec | hapi-fhir-jpaserver-empi/src/main/java/ca/uhn/fhir/jpa/empi/svc/GoldenResourceMergerSvcImpl.java:92-102 | the table loses exactly the AUTO links of the from-resource |
| GoldenMerge.FindPair | hapi-fhir-jpaserver-empi/src/main/java/ca/uhn/fhir/jpa/empi/svc/GoldenResourceMergerSvcImpl.java:105-106 | finds a link between the two resources exactly when one exists, and then the one with the lowest id |
| GoldenMerge.AddMergeLink | hapi-fhir-jpaserver-empi/src/main/java/ca/uhn/fhir/jpa/empi/svc/GoldenResourceMergerSvcImpl.java:104-113 | an existing link between the pair is overwritten with a MANUAL REDIRECT record; otherwise one is created under the fresh id |
| GoldenMerge.AddMergeLinkSpec | hapi-fhir-jpaserver-empi/src/main/java/ca/uhn/fhir/jpa/empi/svc/GoldenResourceMergerSvcImpl.java:104-113 | afterwards the redirect record exists, links of other pairs are unchanged, and the key set grows by the fresh id exactly when the pair had no link |
| GoldenMerge.AddMergeLinkIdempotent | hapi-fhir-jpaserver-empi/src/main/java/ca/uhn/fhir/jpa/empi/svc/GoldenResourceMergerSvcImpl.java:104-113 | adding the merge link a second time changes nothing |
| GoldenMerge.MergeGoldenResourcesSpec | hapi-fhir-jpaserver-empi/src/main/java/ca/uhn/fhir/jpa/empi/svc/GoldenResourceMergerSvcImpl.java:58-83 | after a successful merge no link names the from-resource as its golden resource, every MANUAL from-link (not aimed at the from-resource itself) now points at the to-resource unchanged otherwise, and the redirect record exists |

## Left out

- Sealing (`sealAndInitialize`) and the undeclared-extension definition: their bodies belong to the runtime definition classes, which are not part of this model.
- Logging, exception messages and the transaction log messages: only the kind of each error is modelled.
- Reflection: annotations, interfaces, superclasses and declared fields come from the `Classpath` table. Generic type-argument extraction for `List` fields is a field of that table.
- The exception wrapped around a failing narrative-child constructor: that constructor is not part of this model, so a narrative field always succeeds.
- `HashSet` iteration order of the worklist: fixed to ascending class id. Which of several errors is reported can depend on this order; success and the registry built are proved for the order chosen.
- `scanCodeTable`: it does nothing, so a code-table class is accepted but not registered, and the recorded code tables are never scanned.
- `RuntimeChild*Definition` details beyond name, bounds, types, extension url and code type: they are not read by the scanner.
- `PersonHelper.mergeFields`, `IdHelperService`, `upsertSourceResource` and the deactivation comments of `mergeGoldenResources`: they act on resources, not links, and their code is not part of this model. Resource pids are parameters.
- Database id generation: the fresh id for a created merge link is a parameter that must not already be in use.
- `getOrCreateEmpiLinkBySourceResourcePidAndTargetResourcePid`: its code is not part of this model. If several links join the pair, the one with the lowest id is assumed to be reused.
- The order of `findEmpiLinksByGoldenResource`: fixed to ascending link id.
- `@Transactional`: a failing merge is modelled as leaving nothing behind; the partial effects of an aborted transaction are not.
- A link whose source is null: both sources are always set in the model.
- `Flattener.MergeSound`: the merge itself is total. The failing cast of a choice child found in the extension map (ModelScanner.java:242) is raised by `Flattener.ScanChildren` before the merge, as `ChoiceInExtensionMap`; the scan ends in the same failure.
- `Flattener.Chain`: takes no account of interfaces. The missing superclass of an interface (ModelScanner.java:211) is the `InterfaceInChain` error of `Flattener.ScanChildren`.
- `GoldenMerge.MergeGoldenResourceLinksSpec`: stated only for two distinct golden resources. `MergeLoop` models merging a resource into itself, but its outcome is not characterised.
- `GoldenMerge.MergeGoldenResourcesSpec`: stated only for two distinct golden resources, and covers only the link calls of `mergeGoldenResources`.
- `GoldenMerge.LeftOnFromAreAuto`: stated only for two distinct golden resources.
- `GoldenMerge.ManualFromLinkMoves`: stated only for two distinct golden resources.
- `GoldenMerge.AddMergeLink`: requires the fresh id to be unused, which the database guarantees.
