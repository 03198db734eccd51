/** The scanner's driver: `scan` classifies one class by its type-level
    annotations and builds its definition; the constructor scans a
    worklist in rounds until no new class is queued. */
module Scanner {
  import opened Results
  import opened Metamodel
  import opened Introspector
  import opened Flattener
  import Ordering

  /** The scanner's fields: class → definition, resource name → resource
      definition, the classes queued for the next round, and the code tables
      met so far. */
  datatype State = State(
    defs: map<TypeId, ElementDef>,
    byName: map<string, ElementDef>,
    scanAlso: set<TypeId>,
    codeTables: set<TypeId>
  )

  const Empty: State := State(map[], map[], {}, {})

  /** The children a definition was given (none for a primitive). */
  function MembersOf(d: ElementDef): seq<Member> {
    match d
    case ResourceDefinition(_, _, ms) => ms
    case CompositeDatatypeDefinition(_, _, ms) => ms
    case BlockDefinition(_, _, ms) => ms
    case _ => []
  }

  /** The class carries an annotation that makes `scan` build a definition. */
  predicate Registrable(u: Universe, t: TypeId) {
    var i := Info(u, t);
    i.resourceDef.Some? || i.datatypeDef.Some? || i.block.Some?
  }

  /** The class carries at least one annotation `scan` recognises. */
  predicate Annotated(u: Universe, t: TypeId) {
    Registrable(u, t) || Info(u, t).codeTableDef
  }

  /** Every annotation the class carries is backed by the interface it requires. */
  predicate Classifiable(u: Universe, t: TypeId) {
    var i := Info(u, t);
    && (i.resourceDef.Some? ==> Has(u, t, IResource))
    && (i.datatypeDef.Some? ==> Has(u, t, ICompositeDatatype) || Has(u, t, IPrimitiveDatatype))
    && (i.codeTableDef ==> Has(u, t, ICodeEnum))
    && (i.block.Some? ==> Has(u, t, IResourceBlock))
  }

  /** Going from `s` to `r` while scanning `t`: only the entry for `t` may
      change, and the queued classes and code tables only grow. */
  ghost predicate Frame(u: Universe, s: State, r: State, t: TypeId) {
    && (forall x :: x in s.defs && x != t ==> x in r.defs && r.defs[x] == s.defs[x])
    && (forall x :: x in r.defs && x != t ==> x in s.defs)
    && (t in s.defs ==> t in r.defs)
    && s.scanAlso <= r.scanAlso
    && s.codeTables <= r.codeTables
    && (NoInterfaces(u, s.scanAlso) ==> NoInterfaces(u, r.scanAlso))
  }

  /** A definition just built for `t`: keyed by its own class, named, its
      children well-formed and every class they refer to queued in `s`. */
  ghost predicate Built(u: Universe, s: State, t: TypeId, d: ElementDef) {
    && d.cls == t
    && !IsBlank(d.name)
    && NarrativesFirstDistinct(MembersOf(d))
    && MembersQueued(u, MembersOf(d), s.scanAlso)
  }

  /** `scanResource`. */
  function ScanResource(u: Universe, s: State, t: TypeId, a: ResourceDefAnnotation): (r: Result<State, ScanError>)
    ensures IsBlank(a.name) ==> r == Err(BlankName)
    ensures !IsBlank(a.name) && a.name in s.byName && s.byName[a.name].cls != t ==> r == Err(DuplicateResourceName)
    ensures !IsBlank(a.name) && a.name in s.byName && s.byName[a.name].cls == t ==> r == Ok(s)
    // a new name: the scan succeeds exactly when the class's children can be scanned
    ensures !IsBlank(a.name) && a.name !in s.byName ==>
      && (r.Ok? <==> ClassChildren(u, t, Some(a.identifierOrder)).Ok?)
      && (ClassChildren(u, t, Some(a.identifierOrder)).Err? ==> r == Err(ClassChildren(u, t, Some(a.identifierOrder)).error))
    ensures r.Ok? && a.name !in s.byName ==>
      && Frame(u, s, r.value, t)
      && t in r.value.defs
      && r.value.defs[t].ResourceDefinition?
      && r.value.defs[t].name == a.name
      && ClassChildren(u, t, Some(a.identifierOrder)) == Ok(MembersOf(r.value.defs[t]))
      && Built(u, r.value, t, r.value.defs[t])
      && r.value.byName == s.byName[a.name := r.value.defs[t]]
  {
    if IsBlank(a.name) then Err(BlankName)
    else if a.name in s.byName then
      if s.byName[a.name].cls != t then Err(DuplicateResourceName) else Ok(s)
    else
      ScanChildrenMembers(u, t, Some(a.identifierOrder), s.scanAlso, s.codeTables);
      var c :- ScanChildren(u, t, Some(a.identifierOrder), s.scanAlso, s.codeTables);
      var d := ResourceDefinition(a.name, t, c.members);
      ChildrenRecorded(u, s, t, Some(a.identifierOrder), d, s.byName[a.name := d]);
      Ok(State(s.defs[t := d], s.byName[a.name := d], c.scanAlso, c.codeTables))
  }

  /** `scanCompositeDatatype`. */
  function ScanCompositeDatatype(u: Universe, s: State, t: TypeId, name: string): (r: Result<State, ScanError>)
    ensures IsBlank(name) ==> r == Err(BlankName)
    ensures !IsBlank(name) ==>
      && (r.Ok? <==> ClassChildren(u, t, None).Ok?)
      && (ClassChildren(u, t, None).Err? ==> r == Err(ClassChildren(u, t, None).error))
    ensures r.Ok? ==>
      && Frame(u, s, r.value, t)
      && t in r.value.defs
      && r.value.defs[t].CompositeDatatypeDefinition?
      && r.value.defs[t].name == name
      && ClassChildren(u, t, None) == Ok(MembersOf(r.value.defs[t]))
      && Built(u, r.value, t, r.value.defs[t])
      && r.value.byName == s.byName
  {
    if IsBlank(name) then Err(BlankName)
    else
      ScanChildrenMembers(u, t, None, s.scanAlso, s.codeTables);
      var c :- ScanChildren(u, t, None, s.scanAlso, s.codeTables);
      var d := CompositeDatatypeDefinition(name, t, c.members);
      ChildrenRecorded(u, s, t, None, d, s.byName);
      Ok(State(s.defs[t := d], s.byName, c.scanAlso, c.codeTables))
  }

  /** Recording a definition of `t` that holds the children just scanned:
      only the entry of `t` changes, the definition is built, and it holds its
      class's children. */
  lemma ChildrenRecorded(u: Universe, s: State, t: TypeId, idOrder: Option<int>, d: ElementDef, byName: map<string, ElementDef>)
    requires ScanChildren(u, t, idOrder, s.scanAlso, s.codeTables).Ok?
    requires d.cls == t && !IsBlank(d.name)
    requires MembersOf(d) == ScanChildren(u, t, idOrder, s.scanAlso, s.codeTables).value.members
    ensures var c := ScanChildren(u, t, idOrder, s.scanAlso, s.codeTables).value;
      var r := State(s.defs[t := d], byName, c.scanAlso, c.codeTables);
      && Frame(u, s, r, t)
      && Built(u, r, t, d)
      && ClassChildren(u, t, idOrder) == Ok(MembersOf(d))
  {
    ScanChildrenSound(u, t, idOrder, s.scanAlso, s.codeTables);
    ScanChildrenMembers(u, t, idOrder, s.scanAlso, s.codeTables);
  }

  /** `scanPrimitiveDatatype`: the XHTML type gets the narrative variant. */
  function ScanPrimitiveDatatype(u: Universe, s: State, t: TypeId, name: string): (r: Result<State, ScanError>)
    ensures IsBlank(name) <==> r.Err?
    ensures r.Err? ==> r.error == BlankName
    ensures r.Ok? ==>
      && Frame(u, s, r.value, t)
      && t in r.value.defs
      && (if t == u.xhtmlDt then r.value.defs[t].PrimitiveNarrativeDefinition? else r.value.defs[t].PrimitiveDatatypeDefinition?)
      && r.value.defs[t].name == name
      && Built(u, r.value, t, r.value.defs[t])
      && r.value.byName == s.byName
      && r.value.scanAlso == s.scanAlso
  {
    if IsBlank(name) then Err(BlankName)
    else
      var d := if t == u.xhtmlDt then PrimitiveNarrativeDefinition(name, t) else PrimitiveDatatypeDefinition(name, t);
      Ok(s.(defs := s.defs[t := d]))
  }

  /** `scanBlock`. */
  function ScanBlock(u: Universe, s: State, t: TypeId, name: string): (r: Result<State, ScanError>)
    ensures IsBlank(name) ==> r == Err(BlankName)
    ensures !IsBlank(name) ==>
      && (r.Ok? <==> ClassChildren(u, t, None).Ok?)
      && (ClassChildren(u, t, None).Err? ==> r == Err(ClassChildren(u, t, None).error))
    ensures r.Ok? ==>
      && Frame(u, s, r.value, t)
      && t in r.value.defs
      && r.value.defs[t].BlockDefinition?
      && r.value.defs[t].name == name
      && ClassChildren(u, t, None) == Ok(MembersOf(r.value.defs[t]))
      && Built(u, r.value, t, r.value.defs[t])
      && r.value.byName == s.byName
  {
    if IsBlank(name) then Err(BlankName)
    else
      ScanChildrenMembers(u, t, None, s.scanAlso, s.codeTables);
      var c :- ScanChildren(u, t, None, s.scanAlso, s.codeTables);
      var d := BlockDefinition(name, t, c.members);
      ChildrenRecorded(u, s, t, None, d, s.byName);
      Ok(State(s.defs[t := d], s.byName, c.scanAlso, c.codeTables))
  }

  /** The `@ResourceDef` step of `scan`. */
  function ResourceStep(u: Universe, s: State, t: TypeId): Result<State, ScanError> {
    var i := Info(u, t);
    if i.resourceDef.None? then Ok(s)
    else if !Has(u, t, IResource) then Err(ResourceDefWithoutIResource)
    else ScanResource(u, s, t, i.resourceDef.value)
  }

  /** The `@DatatypeDef` step of `scan`: composite is tried before primitive. */
  function DatatypeStep(u: Universe, s: State, t: TypeId): Result<State, ScanError> {
    var i := Info(u, t);
    if i.datatypeDef.None? then Ok(s)
    else if Has(u, t, ICompositeDatatype) then ScanCompositeDatatype(u, s, t, i.datatypeDef.value)
    else if Has(u, t, IPrimitiveDatatype) then ScanPrimitiveDatatype(u, s, t, i.datatypeDef.value)
    else Err(DatatypeDefWithoutIDatatype)
  }

  /** The `@CodeTableDef` step of `scan`; `scanCodeTable` itself does nothing. */
  function CodeTableStep(u: Universe, s: State, t: TypeId): Result<State, ScanError> {
    if !Info(u, t).codeTableDef then Ok(s)
    else if Has(u, t, ICodeEnum) then Ok(s)
    else Err(CodeTableDefWithoutICodeEnum)
  }

  /** The `@Block` step of `scan`. */
  function BlockStep(u: Universe, s: State, t: TypeId): Result<State, ScanError> {
    var i := Info(u, t);
    if i.block.None? then Ok(s)
    else if Has(u, t, IResourceBlock) then ScanBlock(u, s, t, i.block.value)
    else Err(BlockWithoutIResourceBlock)
  }

  /** `scan`: a class already defined is skipped; otherwise each annotation
      it carries is processed in turn, and a class with none is rejected. */
  function Scan(u: Universe, s: State, t: TypeId): (r: Result<State, ScanError>)
    ensures t in s.defs ==> r == Ok(s)
  {
    if t in s.defs then Ok(s)
    else
      var s1 :- ResourceStep(u, s, t);
      var s2 :- DatatypeStep(u, s1, t);
      var s3 :- CodeTableStep(u, s2, t);
      var s4 :- BlockStep(u, s3, t);
      if !Annotated(u, t) then Err(NoAnnotation) else Ok(s4)
  }

  /** A successful scan of a new class means the class carries an annotation
      and every annotation is backed by its interface; an unannotated class
      and a `@ResourceDef` without `IResource` are rejected with their own
      errors. */
  lemma ScanClassifies(u: Universe, s: State, t: TypeId)
    requires t !in s.defs
    ensures Scan(u, s, t).Ok? ==> Annotated(u, t) && Classifiable(u, t)
    ensures !Annotated(u, t) ==> Scan(u, s, t) == Err(NoAnnotation)
    ensures Info(u, t).resourceDef.Some? && !Has(u, t, IResource) ==> Scan(u, s, t) == Err(ResourceDefWithoutIResource)
    // with no annotation processed before it, each other annotation without
    // its interface is rejected with its own error
    ensures && Info(u, t).resourceDef.None? && Info(u, t).datatypeDef.Some?
            && !Has(u, t, ICompositeDatatype) && !Has(u, t, IPrimitiveDatatype) ==>
      Scan(u, s, t) == Err(DatatypeDefWithoutIDatatype)
    ensures && Info(u, t).resourceDef.None? && Info(u, t).datatypeDef.None?
            && Info(u, t).codeTableDef && !Has(u, t, ICodeEnum) ==>
      Scan(u, s, t) == Err(CodeTableDefWithoutICodeEnum)
    ensures && Info(u, t).resourceDef.None? && Info(u, t).datatypeDef.None?
            && (Info(u, t).codeTableDef ==> Has(u, t, ICodeEnum))
            && Info(u, t).block.Some? && !Has(u, t, IResourceBlock) ==>
      Scan(u, s, t) == Err(BlockWithoutIResourceBlock)
  {
    var i := Info(u, t);
    if Scan(u, s, t).Ok? {
      var s1 := ResourceStep(u, s, t).value;
      var s2 := DatatypeStep(u, s1, t).value;
      var s3 := CodeTableStep(u, s2, t).value;
      assert BlockStep(u, s3, t).Ok?;
    }
  }

  /** What `scan` demands of a class not yet defined: at least one
      recognised annotation, each backed by its interface, and each present
      annotation's own scan able to succeed: a non-blank name, a resource
      name not taken by another class, and children that scan. Nothing limits
      how many annotations a class carries. */
  ghost predicate Scannable(u: Universe, s: State, t: TypeId) {
    var i := Info(u, t);
    && Annotated(u, t) && Classifiable(u, t)
    && (i.resourceDef.Some? ==>
          var a := i.resourceDef.value;
          && !IsBlank(a.name)
          && (a.name in s.byName ==> s.byName[a.name].cls == t)
          && (a.name !in s.byName ==> ClassChildren(u, t, Some(a.identifierOrder)).Ok?))
    && (i.datatypeDef.Some? ==>
          && !IsBlank(i.datatypeDef.value)
          && (Has(u, t, ICompositeDatatype) ==> ClassChildren(u, t, None).Ok?))
    && (i.block.Some? ==> !IsBlank(i.block.value) && ClassChildren(u, t, None).Ok?)
  }

  /** `scan` accepts a new class exactly when it is scannable; in particular
      a class may carry several annotations. */
  lemma ScanAccepts(u: Universe, s: State, t: TypeId)
    requires t !in s.defs
    ensures Scan(u, s, t).Ok? <==> Scannable(u, s, t)
  {
    var i := Info(u, t);
    var r1 := ResourceStep(u, s, t);
    if r1.Ok? {
      var s1 := r1.value;
      assert s1.byName.Keys >= s.byName.Keys;
      var r2 := DatatypeStep(u, s1, t);
      if r2.Ok? {
        var s2 := r2.value;
        var r3 := CodeTableStep(u, s2, t);
        if r3.Ok? {
          assert BlockStep(u, s2, t) == BlockStep(u, r3.value, t);
        }
      }
    }
    if Scan(u, s, t).Ok? {
      ScanClassifies(u, s, t);
    }
  }

  /** A class with no superclass and no fields: its children scan to none. */
  lemma BareClassChildren(u: Universe, t: TypeId, idOrder: Option<int>)
    requires Info(u, t).superclass.None? && Info(u, t).fields == [] && !IsInterface(u, t)
    ensures ScanChildren(u, t, idOrder, {}, {}) == Ok(Children([], {}, {}))
  {
    assert Chain(u, t) == [t];
    assert !InterfaceAmong(u, [t]);
    assert DeclaredFields(u, [t]) == [];
    WalkLevelsIsOneWalk(u, [t], StartWalk({}, {}));
    var w := StartWalk({}, {});
    assert WalkChain(u, t, {}, {}) == Ok(w);
    assert NegativeKeys(w.elems) == {};
    assert Relocate(w.elems, idOrder) == Ok(w.elems);
    assert Ordering.Ascending(w.elems.Keys + w.exts.Keys) == [];
    assert Merge(w.elems, w.exts) == [];
  }

  /** A class carrying both `@ResourceDef` and `@Block`, each backed by its
      interface, is accepted: the class map ends with the block definition
      and the name index with the resource definition. */
  lemma DoublyAnnotatedAccepted()
    ensures var u := Classpath(map[1 := TypeInfo(false, {IResource, IResourceBlock}, Some(ResourceDefAnnotation("Patient", 0)),
                                                 None, false, Some("Contact"), None, [])], 0, 0, 0, 0);
      && Scan(u, Empty, 1).Ok?
      && Scan(u, Empty, 1).value.defs[1] == BlockDefinition("Contact", 1, [])
      && Scan(u, Empty, 1).value.byName["Patient"] == ResourceDefinition("Patient", 1, [])
  {
    var u := Classpath(map[1 := TypeInfo(false, {IResource, IResourceBlock}, Some(ResourceDefAnnotation("Patient", 0)),
                                        None, false, Some("Contact"), None, [])], 0, 0, 0, 0);
    assert !IsWhitespace("Patient"[0]) && !IsBlank("Patient");
    assert !IsWhitespace("Contact"[0]) && !IsBlank("Contact");
    BareClassChildren(u, 1, Some(0));
    BareClassChildren(u, 1, None);
    ScanChildrenMembers(u, 1, Some(0), {}, {});
    ScanChildrenMembers(u, 1, None, {}, {});
    var d1 := ResourceDefinition("Patient", 1, []);
    var s1 := State(map[1 := d1], map["Patient" := d1], {}, {});
    assert ScanResource(u, Empty, 1, ResourceDefAnnotation("Patient", 0)) == Ok(s1);
    assert ResourceStep(u, Empty, 1) == Ok(s1);
    assert DatatypeStep(u, s1, 1) == Ok(s1);
    assert CodeTableStep(u, s1, 1) == Ok(s1);
    var d2 := BlockDefinition("Contact", 1, []);
    assert ScanChildren(u, 1, None, s1.scanAlso, s1.codeTables) == Ok(Children([], {}, {}));
    assert ScanBlock(u, s1, 1, "Contact") == Ok(s1.(defs := s1.defs[1 := d2]));
    assert BlockStep(u, s1, 1) == Ok(s1.(defs := s1.defs[1 := d2]));
    assert Annotated(u, 1);
  }

  /** The kind and name of the definition `scan` gives class `t`: the last
      annotation processed wins. */
  ghost predicate DefinedAs(u: Universe, t: TypeId, d: ElementDef) {
    var i := Info(u, t);
    if i.block.Some? then d.BlockDefinition? && d.name == i.block.value
    else if i.datatypeDef.Some? then
      && d.name == i.datatypeDef.value
      && (if Has(u, t, ICompositeDatatype) then d.CompositeDatatypeDefinition?
          else if t == u.xhtmlDt then d.PrimitiveNarrativeDefinition?
          else d.PrimitiveDatatypeDefinition?)
    else i.resourceDef.Some? && d.ResourceDefinition? && d.name == i.resourceDef.value.name
  }

  /** The definition holds exactly the children the scan of its class
      yields: with the resource's identifier order for a resource, without
      one for a composite datatype or a block. */
  ghost predicate HasClassChildren(u: Universe, t: TypeId, d: ElementDef) {
    match d
    case ResourceDefinition(_, _, ms) =>
      Info(u, t).resourceDef.Some? && ClassChildren(u, t, Some(Info(u, t).resourceDef.value.identifierOrder)) == Ok(ms)
    case CompositeDatatypeDefinition(_, _, ms) => ClassChildren(u, t, None) == Ok(ms)
    case BlockDefinition(_, _, ms) => ClassChildren(u, t, None) == Ok(ms)
    case _ => true
  }

  /** A registered definition: keyed by its class, named, of the kind its
      annotations call for, holding its class's children, which are well-formed. */
  ghost predicate Registered(u: Universe, t: TypeId, d: ElementDef) {
    && d.cls == t && !IsBlank(d.name) && Classifiable(u, t) && DefinedAs(u, t, d)
    && HasClassChildren(u, t, d) && NarrativesFirstDistinct(MembersOf(d))
  }

  /** A registered class annotated `@ResourceDef` is indexed under its name. */
  ghost predicate ResourceIndexed(u: Universe, s: State, t: TypeId) {
    var i := Info(u, t);
    i.resourceDef.Some? ==> i.resourceDef.value.name in s.byName && s.byName[i.resourceDef.value.name].cls == t
  }

  /** An entry of the name index: a resource definition of a registered class
      annotated with that name; it is the class's definition unless a later
      annotation of the same class replaced it. */
  ghost predicate NameEntry(u: Universe, s: State, n: string) {
    && n in s.byName
    && var d := s.byName[n];
    && d.ResourceDefinition?
    && d.name == n
    && d.cls in s.defs
    && Info(u, d.cls).resourceDef.Some?
    && Info(u, d.cls).resourceDef.value.name == n
    && HasClassChildren(u, d.cls, d)
    && (Info(u, d.cls).datatypeDef.None? && Info(u, d.cls).block.None? ==> s.defs[d.cls] == d)
  }

  /** What holds of the scanner's fields between scans. */
  ghost predicate Wf(u: Universe, s: State) {
    && (forall t :: t in s.defs ==> t in u.types && Registered(u, t, s.defs[t]) && ResourceIndexed(u, s, t))
    && (forall n :: n in s.byName ==> NameEntry(u, s, n))
    && NoInterfaces(u, s.scanAlso)
  }

  lemma EmptyWf(u: Universe)
    ensures Wf(u, Empty)
  {
  }

  /** The `@ResourceDef` step of a new class, under the invariant. */
  lemma ResourceStepSound(u: Universe, s: State, t: TypeId)
    requires Wf(u, s) && t !in s.defs
    requires ResourceStep(u, s, t).Ok?
    ensures var r := ResourceStep(u, s, t).value;
      && Frame(u, s, r, t)
      && (Info(u, t).resourceDef.None? ==> r == s)
      && (Info(u, t).resourceDef.Some? ==>
            && t in r.defs
            && r.defs[t].ResourceDefinition?
            && r.defs[t].name == Info(u, t).resourceDef.value.name
            && Built(u, r, t, r.defs[t])
            && HasClassChildren(u, t, r.defs[t])
            && r.byName == s.byName[r.defs[t].name := r.defs[t]]
            && r.defs[t].name !in s.byName)
  {
    var i := Info(u, t);
    if i.resourceDef.Some? {
      var a := i.resourceDef.value;
      if a.name in s.byName {
        assert false;
      }
    }
  }

  /** `scan` keeps the invariant, changes only the entry of the class it
      scans, registers exactly the classes with a registrable annotation,
      and queues classes only while registering a new one. */
  lemma ScanSound(u: Universe, s: State, t: TypeId)
    requires Wf(u, s)
    requires Scan(u, s, t).Ok?
    ensures var r := Scan(u, s, t).value;
      && Wf(u, r)
      && Frame(u, s, r, t)
      && r.byName.Keys >= s.byName.Keys
      && (t !in s.defs ==> (t in r.defs <==> Registrable(u, t)))
      && (t in r.defs && t !in s.defs ==> MembersQueued(u, MembersOf(r.defs[t]), r.scanAlso))
      && (r.scanAlso != s.scanAlso ==> t !in s.defs && t in r.defs)
  {
    if t !in s.defs {
      var i := Info(u, t);
      ResourceStepSound(u, s, t);
      var s1 := ResourceStep(u, s, t).value;
      var s2 := DatatypeStep(u, s1, t).value;
      var s3 := CodeTableStep(u, s2, t).value;
      var s4 := BlockStep(u, s3, t).value;
      assert Scan(u, s, t).value == s4;
      assert s3 == s2;
      ScanClassifies(u, s, t);
      StepsSound(u, s, s1, s2, s4, t);
    }
  }

  /** The datatype and block steps after the resource step. */
  lemma StepsSound(u: Universe, s: State, s1: State, s2: State, s4: State, t: TypeId)
    requires Wf(u, s) && t !in s.defs
    requires ResourceStep(u, s, t) == Ok(s1)
    requires DatatypeStep(u, s1, t) == Ok(s2)
    requires BlockStep(u, s2, t) == Ok(s4)
    requires Annotated(u, t) && Classifiable(u, t)
    requires Frame(u, s, s1, t)
    requires Info(u, t).resourceDef.None? ==> s1 == s
    requires Info(u, t).resourceDef.Some? ==>
            && t in s1.defs
            && s1.defs[t].ResourceDefinition?
            && s1.defs[t].name == Info(u, t).resourceDef.value.name
            && Built(u, s1, t, s1.defs[t])
            && HasClassChildren(u, t, s1.defs[t])
            && s1.byName == s.byName[s1.defs[t].name := s1.defs[t]]
            && s1.defs[t].name !in s.byName
    ensures
      && Wf(u, s4)
      && Frame(u, s, s4, t)
      && s4.byName.Keys >= s.byName.Keys
      && (t in s4.defs <==> Registrable(u, t))
      && (t in s4.defs ==> MembersQueued(u, MembersOf(s4.defs[t]), s4.scanAlso))
      && (s4.scanAlso != s.scanAlso ==> t in s4.defs)
  {
    var i := Info(u, t);
    LaterSteps(u, s1, s2, s4, t);
    FrameTrans(u, s, s1, s4, t);
    if t in s4.defs {
      if i.block.None? && i.datatypeDef.None? {
        assert s4 == s1;
      }
      RegistrableKnown(u, t);
    }
    if i.resourceDef.Some? {
      NewNameEntry(u, s1, s4, t);
    }
    WfExtend(u, s, s4, t);
  }

  /** The name-index entry the resource step made is sound once the later
      steps are done. */
  lemma NewNameEntry(u: Universe, s1: State, s4: State, t: TypeId)
    requires Info(u, t).resourceDef.Some?
    requires t in s1.defs && t in s4.defs
    requires var d := s1.defs[t];
      && d.ResourceDefinition? && d.cls == t && d.name == Info(u, t).resourceDef.value.name
      && HasClassChildren(u, t, d)
      && d.name in s1.byName && s1.byName[d.name] == d
    requires s4.byName == s1.byName
    requires Info(u, t).datatypeDef.None? && Info(u, t).block.None? ==> s4 == s1
    ensures NameEntry(u, s4, Info(u, t).resourceDef.value.name)
  {
  }

  /** Frames compose. */
  lemma FrameTrans(u: Universe, s: State, s1: State, s2: State, t: TypeId)
    requires Frame(u, s, s1, t) && Frame(u, s1, s2, t)
    ensures Frame(u, s, s2, t)
  {
  }

  /** A built definition stays built as more classes are queued. */
  lemma BuiltGrows(u: Universe, s: State, r: State, t: TypeId)
    requires t in s.defs && Built(u, s, t, s.defs[t]) && s.scanAlso <= r.scanAlso
    ensures Built(u, r, t, s.defs[t])
  {
  }

  /** Only classes the table describes carry annotations. */
  lemma RegistrableKnown(u: Universe, t: TypeId)
    requires Registrable(u, t)
    ensures t in u.types
  {
  }

  /** The datatype and block steps: each rebuilds the entry for `t` when its
      annotation is present and leaves the state alone otherwise; together
      they leave `t` defined as its annotations call for. */
  lemma LaterSteps(u: Universe, s1: State, s2: State, s4: State, t: TypeId)
    requires DatatypeStep(u, s1, t) == Ok(s2)
    requires BlockStep(u, s2, t) == Ok(s4)
    requires Info(u, t).resourceDef.Some? ==>
      && t in s1.defs && Built(u, s1, t, s1.defs[t]) && HasClassChildren(u, t, s1.defs[t])
      && s1.defs[t].ResourceDefinition? && s1.defs[t].name == Info(u, t).resourceDef.value.name
    requires Info(u, t).resourceDef.None? ==> t !in s1.defs
    ensures Frame(u, s1, s4, t) && s4.byName == s1.byName
    ensures t in s4.defs <==> Registrable(u, t)
    ensures t in s4.defs ==> Built(u, s4, t, s4.defs[t]) && DefinedAs(u, t, s4.defs[t]) && HasClassChildren(u, t, s4.defs[t])
    ensures s4.scanAlso != s1.scanAlso ==> t in s4.defs
    ensures Info(u, t).datatypeDef.None? && Info(u, t).block.None? ==> s4 == s1
  {
    var i := Info(u, t);
    if i.datatypeDef.Some? {
      assert t in s2.defs && Built(u, s2, t, s2.defs[t]);
    } else {
      assert s2 == s1;
    }
    if i.block.Some? {
      assert t in s4.defs && Built(u, s4, t, s4.defs[t]);
    } else {
      assert s4 == s2;
      if t in s2.defs {
        BuiltGrows(u, s2, s4, t);
      }
    }
  }

  /** The invariant survives a step that only touches the entry for `t`, as
      long as that entry and the new name-index entries are sound. */
  lemma WfExtend(u: Universe, s: State, r: State, t: TypeId)
    requires Wf(u, s) && t !in s.defs && Frame(u, s, r, t)
    requires t in r.defs ==> t in u.types && Registered(u, t, r.defs[t])
    requires ResourceIndexed(u, r, t)
    requires forall n :: n in s.byName ==> n in r.byName && r.byName[n] == s.byName[n]
    requires forall n :: n in r.byName && n !in s.byName ==> NameEntry(u, r, n)
    ensures Wf(u, r)
  {
    forall x | x in r.defs
      ensures x in u.types && Registered(u, x, r.defs[x]) && ResourceIndexed(u, r, x)
    {
      if x != t {
        assert ResourceIndexed(u, s, x);
      }
    }
    forall n | n in r.byName
      ensures NameEntry(u, r, n)
    {
      if n in s.byName {
        assert NameEntry(u, s, n);
      }
    }
  }

  /** One round of the constructor's loop: every class of `ts` is scanned,
      in ascending order. */
  function ScanSet(u: Universe, s: State, ts: set<TypeId>): Result<State, ScanError>
    decreases |ts|
  {
    if ts == {} then Ok(s)
    else
      var t: TypeId := Ordering.Least(ts);
      var s1 :- Scan(u, s, t);
      ScanSet(u, s1, ts - {t})
  }

  /** Class `t` has been scanned successfully into `s`. */
  ghost predicate Scanned(u: Universe, s: State, t: TypeId) {
    Annotated(u, t) && Classifiable(u, t) && (Registrable(u, t) ==> t in s.defs)
  }

  /** Entries once made are never replaced by a later scan. */
  ghost predicate Keeps(s: State, r: State) {
    forall x :: x in s.defs ==> x in r.defs && r.defs[x] == s.defs[x]
  }

  /** A registered class keeps being scanned; a new class passes or fails its scan. */
  lemma ScannedWhenDefined(u: Universe, s: State, t: TypeId)
    requires Wf(u, s) && t in s.defs
    ensures Scanned(u, s, t)
  {
    assert Registered(u, t, s.defs[t]);
  }

  /** A round keeps the invariant, keeps every entry already made, scans
      every class of `ts`, and queues classes only while registering new ones. */
  lemma {:induction false} ScanSetSound(u: Universe, s: State, ts: set<TypeId>)
    requires Wf(u, s)
    requires ScanSet(u, s, ts).Ok?
    ensures var r := ScanSet(u, s, ts).value;
      && Wf(u, r)
      && Keeps(s, r)
      && s.scanAlso <= r.scanAlso
      && (r.scanAlso != s.scanAlso ==> s.defs.Keys < r.defs.Keys)
      && (forall t :: t in ts ==> Scanned(u, r, t))
    decreases |ts|
  {
    if ts != {} {
      var t: TypeId := Ordering.Least(ts);
      var s1 := Scan(u, s, t).value;
      ScanSound(u, s, t);
      if t !in s.defs {
        ScanClassifies(u, s, t);
      } else {
        ScannedWhenDefined(u, s, t);
      }
      assert Scanned(u, s1, t);
      ScanSetSound(u, s1, ts - {t});
      var r := ScanSet(u, s, ts).value;
      assert r == ScanSet(u, s1, ts - {t}).value;
      assert Keeps(s, s1);
      forall x | x in ts
        ensures Scanned(u, r, x)
      {
        if x == t {
          assert Keeps(s1, r);
        }
      }
      if r.scanAlso != s.scanAlso {
        if s1.scanAlso != s.scanAlso {
          assert t !in s.defs && t in s1.defs;
          assert s.defs.Keys < s1.defs.Keys;
        }
      }
    }
  }

  /** Fewer classes remain unscanned once more are defined. */
  lemma FewerUnscanned(all: set<TypeId>, before: set<TypeId>, after: set<TypeId>)
    requires before < after && after <= all
    ensures |all - after| < |all - before|
  {
    var x :| x in after && x !in before;
    var small, big := all - after, all - before;
    assert x in big - small;
    assert big == small + (big - small);
    assert small * (big - small) == {};
  }

  /** Emptying the queue between rounds keeps the invariant. */
  lemma WfClearQueue(u: Universe, s: State)
    requires Wf(u, s)
    ensures Wf(u, s.(scanAlso := {}))
  {
    var r := s.(scanAlso := {});
    forall t | t in r.defs
      ensures ResourceIndexed(u, r, t)
    {
      assert ResourceIndexed(u, s, t);
    }
    forall n | n in r.byName
      ensures NameEntry(u, r, n)
    {
      assert NameEntry(u, s, n);
    }
  }

  /** The constructor's `do ... while` loop: scan the round's classes, then
      queue for the next round every class asked for and not yet defined. */
  function Rounds(u: Universe, s: State, toScan: set<TypeId>): Result<State, ScanError>
    requires Wf(u, s) && s.scanAlso == {}
    decreases |u.types.Keys - s.defs.Keys|
  {
    var s1 :- ScanSet(u, s, toScan);
    ScanSetSound(u, s, toScan);
    var next := s1.scanAlso - s1.defs.Keys;
    var s2 := s1.(scanAlso := {});
    WfClearQueue(u, s1);
    if next == {} then Ok(s2)
    else
      FewerUnscanned(u.types.Keys, s.defs.Keys, s1.defs.Keys);
      Rounds(u, s2, next)
  }

  /** What the scanner leaves behind: `getClassToElementDefinitions`,
      `getNameToResourceDefinitions`, and the code tables it met. */
  datatype Registry = Registry(
    defs: map<TypeId, ElementDef>,
    byName: map<string, ElementDef>,
    codeTables: set<TypeId>
  )

  /** The constructor: the given resource types plus the narrative, date and
      code datatypes are scanned, and then everything they refer to. */
  function ScanModel(u: Universe, roots: set<TypeId>): Result<Registry, ScanError> {
    EmptyWf(u);
    var s :- Rounds(u, Empty, roots + {u.narrativeDt, u.dateDt, u.codeDt});
    Ok(Registry(s.defs, s.byName, s.codeTables))
  }

  /** Class `x`, referred to by some child, will be (or has been) dealt
      with: it is defined, queued, still to be scanned this round, or
      carries nothing `scan` would define. */
  ghost predicate Covered(u: Universe, s: State, pending: set<TypeId>, x: TypeId) {
    x in s.defs || x in s.scanAlso || x in pending || !Registrable(u, x)
  }

  ghost predicate ChildCovered(u: Universe, s: State, pending: set<TypeId>, c: ChildDef) {
    forall x :: x in Queued(u, c) ==> Covered(u, s, pending, x)
  }

  /** Every class a registered child refers to is covered. */
  ghost predicate Closed(u: Universe, s: State, pending: set<TypeId>) {
    forall t, i :: t in s.defs && 0 <= i < |MembersOf(s.defs[t])| ==>
      ChildCovered(u, s, pending, MembersOf(s.defs[t])[i].child)
  }

  /** Scanning a pending class keeps every referred-to class covered. */
  lemma ScanCloses(u: Universe, s: State, t: TypeId, pending: set<TypeId>)
    requires Wf(u, s) && Scan(u, s, t).Ok?
    requires Closed(u, s, pending) && t in pending
    ensures Closed(u, Scan(u, s, t).value, pending - {t})
  {
    ScanSound(u, s, t);
    ClosedAfter(u, s, Scan(u, s, t).value, t, pending);
  }

  /** The coverage half of `ScanCloses`, from what `ScanSound` says of the scan. */
  lemma ClosedAfter(u: Universe, s: State, r: State, t: TypeId, pending: set<TypeId>)
    requires Closed(u, s, pending) && t in pending
    requires t in s.defs ==> r == s
    requires forall x :: x in s.defs && x != t ==> x in r.defs && r.defs[x] == s.defs[x]
    requires forall x :: x in r.defs && x != t ==> x in s.defs
    requires s.scanAlso <= r.scanAlso
    requires t !in s.defs ==> (t in r.defs <==> Registrable(u, t))
    requires t in r.defs && t !in s.defs ==> MembersQueued(u, MembersOf(r.defs[t]), r.scanAlso)
    ensures Closed(u, r, pending - {t})
  {
    forall y, i | y in r.defs && 0 <= i < |MembersOf(r.defs[y])|
      ensures ChildCovered(u, r, pending - {t}, MembersOf(r.defs[y])[i].child)
    {
      var c := MembersOf(r.defs[y])[i].child;
      forall x | x in Queued(u, c)
        ensures Covered(u, r, pending - {t}, x)
      {
        if y == t && t !in s.defs {
          assert MembersQueued(u, MembersOf(r.defs[t]), r.scanAlso);
        } else {
          assert y in s.defs && r.defs[y] == s.defs[y];
          assert ChildCovered(u, s, pending, c);
          assert Covered(u, s, pending, x);
        }
      }
    }
  }

  /** A round leaves every referred-to class covered without pending ones. */
  lemma {:induction false} ScanSetCloses(u: Universe, s: State, ts: set<TypeId>)
    requires Wf(u, s) && ScanSet(u, s, ts).Ok?
    requires Closed(u, s, ts)
    ensures Closed(u, ScanSet(u, s, ts).value, {})
    decreases |ts|
  {
    if ts != {} {
      var t: TypeId := Ordering.Least(ts);
      var s1 := Scan(u, s, t).value;
      ScanSound(u, s, t);
      ScanCloses(u, s, t, ts);
      ScanSetCloses(u, s1, ts - {t});
    }
  }

  /** Between rounds the classes still queued become the next round's work. */
  lemma ClearCloses(u: Universe, s: State)
    requires Closed(u, s, {})
    ensures Closed(u, s.(scanAlso := {}), s.scanAlso - s.defs.Keys)
  {
    var r := s.(scanAlso := {});
    var next := s.scanAlso - s.defs.Keys;
    forall y, i | y in r.defs && 0 <= i < |MembersOf(r.defs[y])|
      ensures ChildCovered(u, r, next, MembersOf(r.defs[y])[i].child)
    {
      var c := MembersOf(r.defs[y])[i].child;
      assert ChildCovered(u, s, {}, c);
      forall x | x in Queued(u, c)
        ensures Covered(u, r, next, x)
      {
        assert Covered(u, s, {}, x);
      }
    }
  }

  /** The loop as a whole: the invariant holds at the end, nothing is left
      queued, every class any child refers to is covered, and every class
      handed in has been scanned. */
  lemma {:induction false} RoundsSound(u: Universe, s: State, toScan: set<TypeId>)
    requires Wf(u, s) && s.scanAlso == {}
    requires Closed(u, s, toScan)
    requires Rounds(u, s, toScan).Ok?
    ensures var r := Rounds(u, s, toScan).value;
      && Wf(u, r)
      && r.scanAlso == {}
      && Closed(u, r, {})
      && Keeps(s, r)
      && (forall t :: t in toScan ==> Scanned(u, r, t))
    decreases |u.types.Keys - s.defs.Keys|
  {
    var s1 := ScanSet(u, s, toScan).value;
    ScanSetSound(u, s, toScan);
    ScanSetCloses(u, s, toScan);
    var next := s1.scanAlso - s1.defs.Keys;
    var s2 := s1.(scanAlso := {});
    WfClearQueue(u, s1);
    ClearCloses(u, s1);
    if next == {} {
      assert Rounds(u, s, toScan) == Ok(s2);
    } else {
      FewerUnscanned(u.types.Keys, s.defs.Keys, s1.defs.Keys);
      assert Rounds(u, s, toScan) == Rounds(u, s2, next);
      RoundsSound(u, s2, next);
      var r := Rounds(u, s2, next).value;
      assert Keeps(s2, r);
      forall t | t in toScan
        ensures Scanned(u, r, t)
      {
        assert Scanned(u, s1, t);
      }
    }
  }

  /** What a successful run of the constructor guarantees:
      every definition is keyed by its class, of the kind and name its
      annotations call for, with narrative children first and unique child
      names; the name index holds exactly the resource definitions under
      their own names; every class a child refers to is defined unless it
      carries no annotation `scan` would define; and every class handed in,
      and the narrative, date and code datatypes, passed its scan. */
  lemma ScanModelSound(u: Universe, roots: set<TypeId>)
    requires ScanModel(u, roots).Ok?
    ensures var reg := ScanModel(u, roots).value;
      && (forall t :: t in reg.defs ==> t in u.types && Registered(u, t, reg.defs[t]))
      && (forall n :: n in reg.byName ==>
            && reg.byName[n].ResourceDefinition?
            && reg.byName[n].name == n
            && reg.byName[n].cls in reg.defs
            && HasClassChildren(u, reg.byName[n].cls, reg.byName[n]))
      && (forall t :: t in reg.defs && Info(u, t).resourceDef.Some? ==>
            && Info(u, t).resourceDef.value.name in reg.byName
            && reg.byName[Info(u, t).resourceDef.value.name].cls == t
            && (Info(u, t).datatypeDef.None? && Info(u, t).block.None? ==>
                  reg.byName[Info(u, t).resourceDef.value.name] == reg.defs[t]))
      && (forall t, i, x :: t in reg.defs && 0 <= i < |MembersOf(reg.defs[t])| && x in Queued(u, MembersOf(reg.defs[t])[i].child) ==>
            x in reg.defs || !Registrable(u, x))
      && (forall t :: t in roots + {u.narrativeDt, u.dateDt, u.codeDt} ==>
            Annotated(u, t) && Classifiable(u, t) && (Registrable(u, t) ==> t in reg.defs))
  {
    var toScan := roots + {u.narrativeDt, u.dateDt, u.codeDt};
    EmptyWf(u);
    RoundsSound(u, Empty, toScan);
    var s := Rounds(u, Empty, toScan).value;
    var reg := ScanModel(u, roots).value;
    assert reg == Registry(s.defs, s.byName, s.codeTables);
    forall t | t in reg.defs && Info(u, t).resourceDef.Some?
      ensures Info(u, t).resourceDef.value.name in reg.byName && reg.byName[Info(u, t).resourceDef.value.name].cls == t
      ensures Info(u, t).datatypeDef.None? && Info(u, t).block.None? ==>
        reg.byName[Info(u, t).resourceDef.value.name] == reg.defs[t]
    {
      assert ResourceIndexed(u, s, t);
      assert NameEntry(u, s, Info(u, t).resourceDef.value.name);
    }
    forall n | n in reg.byName
      ensures reg.byName[n].ResourceDefinition? && reg.byName[n].name == n && reg.byName[n].cls in reg.defs
      ensures HasClassChildren(u, reg.byName[n].cls, reg.byName[n])
    {
      assert NameEntry(u, s, n);
    }
    forall t, i, x | t in reg.defs && 0 <= i < |MembersOf(reg.defs[t])| && x in Queued(u, MembersOf(reg.defs[t])[i].child)
      ensures x in reg.defs || !Registrable(u, x)
    {
      assert ChildCovered(u, s, {}, MembersOf(s.defs[t])[i].child);
      assert Covered(u, s, {}, x);
    }
    forall t | t in toScan
      ensures Annotated(u, t) && Classifiable(u, t) && (Registrable(u, t) ==> t in reg.defs)
    {
      assert Scanned(u, s, t);
    }
  }

  /** A resource type handed in without any recognised annotation makes the
      constructor fail. */
  lemma UnannotatedRootRejected(u: Universe, roots: set<TypeId>, t: TypeId)
    requires t in roots && !Annotated(u, t)
    ensures ScanModel(u, roots).Err?
  {
    if ScanModel(u, roots).Ok? {
      ScanModelSound(u, roots);
    }
  }

  /** Two distinct registered classes never share a resource name. */
  lemma ResourceNamesDistinct(u: Universe, roots: set<TypeId>, t1: TypeId, t2: TypeId)
    requires ScanModel(u, roots).Ok?
    requires t1 in ScanModel(u, roots).value.defs && t2 in ScanModel(u, roots).value.defs && t1 != t2
    requires Info(u, t1).resourceDef.Some? && Info(u, t2).resourceDef.Some?
    ensures Info(u, t1).resourceDef.value.name != Info(u, t2).resourceDef.value.name
  {
    ScanModelSound(u, roots);
  }
}
