/** The per-field half of `ModelScanner.scanCompositeElementForChildren`:
    one declared field is turned into one child definition, placed under an
    order key in the element map or the extension map, and the classes it
    refers to are queued for a later round instead of being scanned now. */
module Introspector {
  import opened Results
  import opened Metamodel

  /** The state shared by every level of one ancestor walk (the name set and
      the two order-keyed maps), the narrative children added directly to the
      definition, and the scanner-wide sets `myScanAlso` and
      `myScanAlsoCodeTable`. */
  datatype Walk = Walk(
    names: set<string>,
    elems: map<int, ChildDef>,
    exts: map<int, ChildDef>,
    narratives: seq<ChildDef>,
    scanAlso: set<TypeId>,
    codeTables: set<TypeId>
  )

  function StartWalk(scanAlso: set<TypeId>, codeTables: set<TypeId>): Walk {
    Walk({}, map[], map[], [], scanAlso, codeTables)
  }

  /** `addScanAlso` applied to each of `ts`: interfaces are never queued. */
  function Discoverable(u: Universe, ts: set<TypeId>): (r: set<TypeId>)
    ensures r <= ts
    ensures forall t :: t in ts && !IsInterface(u, t) ==> t in r
    ensures forall t :: t in r ==> !IsInterface(u, t)
  {
    set t | t in ts && !IsInterface(u, t)
  }

  /** The classes that introspecting a field into child `c` hands to `addScanAlso`. */
  function Queued(u: Universe, c: ChildDef): set<TypeId> {
    match c
    case NarrativeChild(_, _) => {}
    case ChoiceChild(_, _, _, types) => Discoverable(u, set t | t in types)
    case ExtensionChild(_, _, _, _, vt) => if Has(u, vt, IElement) then Discoverable(u, {vt}) else {}
    case ResourceRefChild(_, _, _, types) => Discoverable(u, set t | t in types)
    case BlockChild(_, _, _, bt) => Discoverable(u, {bt})
    case PrimitiveChild(_, _, _, dt, _) => Discoverable(u, {dt})
    case CompositeChild(_, _, _, dt, _) => Discoverable(u, {dt})
  }

  /** The code table a child records in `myScanAlsoCodeTable`, if any. */
  function CodeTables(c: ChildDef): set<TypeId> {
    if (c.PrimitiveChild? || c.CompositeChild?) && c.codeType.Some? then {c.codeType.value} else {}
  }

  /** `determineElementType`: only `java.util.List` itself is unwrapped to its
      type argument; any other collection is refused. */
  function ElementType(u: Universe, f: FieldInfo): (r: Result<TypeId, ScanError>)
    ensures r.Ok? && Has(u, f.declaredType, ListType) ==> f.typeArgument == Some(r.value)
    ensures r.Ok? && !Has(u, f.declaredType, ListType) ==> r.value == f.declaredType && !Has(u, f.declaredType, CollectionType)
    ensures r.Err? <==> (Has(u, f.declaredType, ListType) && f.typeArgument.None?) || (!Has(u, f.declaredType, ListType) && Has(u, f.declaredType, CollectionType))
    ensures r == Err(NonListCollection) <==> !Has(u, f.declaredType, ListType) && Has(u, f.declaredType, CollectionType)
  {
    if Has(u, f.declaredType, ListType) then
      match f.typeArgument
      case Some(a) => Ok(a)
      case None => Err(UnresolvedListElement)
    else if Has(u, f.declaredType, CollectionType) then Err(NonListCollection)
    else Ok(f.declaredType)
  }

  /** The order key a `@Child` with declared `order` gets in `m`: an unknown
      order whose key is taken moves one below it, once only. */
  function OrderKey(order: int, m: map<int, ChildDef>): (key: int)
    ensures order != OrderUnknown ==> key == order
    ensures order == OrderUnknown ==> key == OrderUnknown || key == OrderUnknown - 1
    ensures key != order <==> order == OrderUnknown && OrderUnknown in m
  {
    if order == OrderUnknown && order in m then order - 1 else order
  }

  /** The child definition for a `@Child` field whose element type is `et`,
      chosen by the precedence choice, extension, resource reference, block,
      datatype. */
  function Dispatch(u: Universe, f: FieldInfo, c: ChildAnnotation, et: TypeId): (r: Result<ChildDef, ScanError>)
    ensures r.Ok? ==> r.value.name == c.name && !r.value.NarrativeChild?
    ensures r.Ok? && r.value.ChoiceChild? <==> |c.choice| > 0
    ensures r.Ok? && r.value.ExtensionChild? <==> |c.choice| == 0 && f.extension.Some?
    ensures r.Ok? && r.value.ResourceRefChild? <==>
      |c.choice| == 0 && f.extension.None? && Has(u, et, ResourceReference) && f.childResource.Some?
    ensures r == Err(MissingChildResource) <==>
      |c.choice| == 0 && f.extension.None? && Has(u, et, ResourceReference) && f.childResource.None?
    ensures r.Ok? && r.value.BlockChild? <==>
      |c.choice| == 0 && f.extension.None? && !Has(u, et, ResourceReference) && Has(u, et, IResourceBlock)
    ensures r.Ok? && (r.value.PrimitiveChild? || r.value.CompositeChild?) ==>
      && !Has(u, et, ResourceReference) && !Has(u, et, IResourceBlock) && Has(u, et, IDatatype)
      && r.value.dataType == et
      && (r.value.PrimitiveChild? <==> Has(u, et, IPrimitiveDatatype))
      && r.value.codeType == f.codeableConcept
    ensures r == Err(NotCodedDatatype) <==>
      && |c.choice| == 0 && f.extension.None? && !Has(u, et, ResourceReference) && !Has(u, et, IResourceBlock)
      && Has(u, et, IDatatype) && f.codeableConcept.Some? && !Has(u, et, ICodedDatatype)
    ensures r == Err(InvalidChildType) <==>
      && |c.choice| == 0 && f.extension.None?
      && !Has(u, et, ResourceReference) && !Has(u, et, IResourceBlock) && !Has(u, et, IDatatype)
    // a datatype that is neither a reference nor a block, with no codeable
    // concept it cannot carry, always becomes a primitive or composite child
    ensures && |c.choice| == 0 && f.extension.None?
            && !Has(u, et, ResourceReference) && !Has(u, et, IResourceBlock) && Has(u, et, IDatatype)
            && !(f.codeableConcept.Some? && !Has(u, et, ICodedDatatype)) ==>
      r.Ok? && (r.value.PrimitiveChild? || r.value.CompositeChild?)
    // these three are the only ways the dispatch fails
    ensures r.Err? ==> r.error == MissingChildResource || r.error == NotCodedDatatype || r.error == InvalidChildType
    // the payload each kind carries
    ensures r.Ok? ==> r.value.min == c.min && r.value.max == c.max
    ensures r.Ok? && r.value.ChoiceChild? ==> r.value.types == c.choice
    ensures r.Ok? && r.value.ExtensionChild? ==> r.value.url == f.extension.value && r.value.valueType == et
    ensures r.Ok? && r.value.ResourceRefChild? ==> r.value.types == f.childResource.value
    ensures r.Ok? && r.value.BlockChild? ==> r.value.blockType == et
  {
    if |c.choice| > 0 then
      Ok(ChoiceChild(c.name, c.min, c.max, c.choice))
    else if f.extension.Some? then
      Ok(ExtensionChild(c.name, c.min, c.max, f.extension.value, et))
    else if Has(u, et, ResourceReference) then
      match f.childResource
      case None => Err(MissingChildResource)
      case Some(types) => Ok(ResourceRefChild(c.name, c.min, c.max, types))
    else if Has(u, et, IResourceBlock) then
      Ok(BlockChild(c.name, c.min, c.max, et))
    else if Has(u, et, IDatatype) then
      if f.codeableConcept.Some? && !Has(u, et, ICodedDatatype) then
        Err(NotCodedDatatype)
      else if Has(u, et, IPrimitiveDatatype) then
        Ok(PrimitiveChild(c.name, c.min, c.max, et, f.codeableConcept))
      else
        Ok(CompositeChild(c.name, c.min, c.max, et, f.codeableConcept))
    else
      Err(InvalidChildType)
  }

  /** The map a `@Child` field is placed in. */
  function TargetMap(f: FieldInfo, w: Walk): map<int, ChildDef> {
    if f.extension.Some? then w.exts else w.elems
  }

  /** The child definition a `@Child` field turns into: its element type is
      resolved, then its kind is chosen. */
  function FieldChild(u: Universe, f: FieldInfo): Result<ChildDef, ScanError>
    requires f.child.Some?
  {
    var et :- ElementType(u, f);
    Dispatch(u, f, f.child.value, et)
  }

  /** Whether the order key a child field would take is already in use. */
  predicate KeyTaken(f: FieldInfo, w: Walk)
    requires f.child.Some?
  {
    OrderKey(f.child.value.order, TargetMap(f, w)) in TargetMap(f, w)
  }

  /** One iteration of the field loop of `scanCompositeElementForChildren`. */
  function IntrospectField(u: Universe, f: FieldInfo, w: Walk): (r: Result<Walk, ScanError>)
    // a narrative field is added directly, bypassing names and orders
    ensures f.narrative.Some? ==>
      r == Ok(w.(narratives := w.narratives + [NarrativeChild(f.fieldName, f.narrative.value)]))
    // a field without @Child is not part of the model
    ensures f.narrative.None? && f.child.None? ==> r == Ok(w)
    // an order key already taken in the chosen map is fatal, then a name already used
    ensures f.narrative.None? && f.child.Some? && OrderKey(f.child.value.order, TargetMap(f, w)) in TargetMap(f, w) ==>
      r == Err(DuplicateOrder)
    ensures f.narrative.None? && f.child.Some? && f.child.value.name in w.names ==> r.Err?
    ensures IsChildField(f) && !KeyTaken(f, w) && f.child.value.name in w.names ==> r == Err(DuplicateName)
    // with a free key and name, the step succeeds exactly when the field's child can be built
    ensures IsChildField(f) && !KeyTaken(f, w) && f.child.value.name !in w.names ==>
      && (r.Ok? <==> FieldChild(u, f).Ok?)
      && (FieldChild(u, f).Err? ==> r == Err(FieldChild(u, f).error))
    // on success exactly one new child sits under a fresh key of the chosen map
    ensures r.Ok? && f.narrative.None? && f.child.Some? ==>
      var key := OrderKey(f.child.value.order, TargetMap(f, w));
      && f.child.value.name !in w.names
      && r.value.names == w.names + {f.child.value.name}
      && r.value.narratives == w.narratives
      && key !in TargetMap(f, w)
      && key in TargetMap(f, r.value)
      && TargetMap(f, r.value) == TargetMap(f, w)[key := TargetMap(f, r.value)[key]]
      && FieldChild(u, f) == Ok(TargetMap(f, r.value)[key])
      && TargetMap(f, r.value)[key].name == f.child.value.name
      && !TargetMap(f, r.value)[key].NarrativeChild?
      && (f.extension.Some? ==> r.value.elems == w.elems)
      && (f.extension.None? ==> r.value.exts == w.exts)
      && r.value.scanAlso == w.scanAlso + Queued(u, TargetMap(f, r.value)[key])
      && r.value.codeTables == w.codeTables + CodeTables(TargetMap(f, r.value)[key])
  {
    if f.narrative.Some? then
      Ok(w.(narratives := w.narratives + [NarrativeChild(f.fieldName, f.narrative.value)]))
    else if f.child.None? then
      Ok(w)
    else
      var c := f.child.value;
      var key := OrderKey(c.order, TargetMap(f, w));
      if key in TargetMap(f, w) then Err(DuplicateOrder)
      else if c.name in w.names then Err(DuplicateName)
      else
        var child :- FieldChild(u, f);
        var w1 := w.(names := w.names + {c.name},
                     scanAlso := w.scanAlso + Queued(u, child),
                     codeTables := w.codeTables + CodeTables(child));
        if f.extension.Some? then Ok(w1.(exts := w.exts[key := child]))
        else Ok(w1.(elems := w.elems[key := child]))
  }

  /** The field loop over a sequence of declared fields, stopping at the first exception. */
  function WalkFields(u: Universe, fs: seq<FieldInfo>, w: Walk): Result<Walk, ScanError>
    decreases |fs|
  {
    if fs == [] then Ok(w)
    else
      var w1 :- IntrospectField(u, fs[0], w);
      WalkFields(u, fs[1..], w1)
  }

  /** Whether `f` takes part in the name and order checks. */
  predicate IsChildField(f: FieldInfo) {
    f.narrative.None? && f.child.Some?
  }

  /** Distinct keys of `m` hold children of distinct names. */
  ghost predicate NamesDistinct(m: map<int, ChildDef>) {
    forall k1, k2 :: k1 in m && k2 in m && m[k1].name == m[k2].name ==> k1 == k2
  }

  /** What the walk keeps true: names unique across both maps and recorded in
      the name set, no narrative in the maps, and every class a mapped child
      refers to already queued. */
  ghost predicate Consistent(u: Universe, w: Walk) {
    && NamesDistinct(w.elems)
    && NamesDistinct(w.exts)
    && (forall k1, k2 :: k1 in w.elems && k2 in w.exts ==> w.elems[k1].name != w.exts[k2].name)
    && (forall k :: k in w.elems ==> w.elems[k].name in w.names && !w.elems[k].NarrativeChild?)
    && (forall k :: k in w.exts ==> w.exts[k].name in w.names && !w.exts[k].NarrativeChild?)
    && (forall k :: k in w.elems ==> Queued(u, w.elems[k]) <= w.scanAlso)
    && (forall k :: k in w.exts ==> Queued(u, w.exts[k]) <= w.scanAlso)
    && (forall i :: 0 <= i < |w.narratives| ==> w.narratives[i].NarrativeChild?)
  }

  /** Introspecting one field keeps the walk consistent and only adds to it. */
  lemma IntrospectFieldConsistent(u: Universe, f: FieldInfo, w: Walk)
    requires Consistent(u, w)
    requires IntrospectField(u, f, w).Ok?
    ensures Consistent(u, IntrospectField(u, f, w).value)
    ensures Grows(w, IntrospectField(u, f, w).value)
  {
    var w' := IntrospectField(u, f, w).value;
    if IsChildField(f) {
      var key := OrderKey(f.child.value.order, TargetMap(f, w));
      var child := TargetMap(f, w')[key];
      var w1 := w.(names := w.names + {child.name},
                   scanAlso := w.scanAlso + Queued(u, child),
                   codeTables := w.codeTables + CodeTables(child));
      if f.extension.Some? {
        assert w' == w1.(exts := w.exts[key := child]);
      } else {
        assert w' == w1.(elems := w.elems[key := child]);
      }
      AddChildConsistent(u, w, key, child, f.extension.Some?);
    }
  }

  /** Recording a fresh, non-narrative child under a free key keeps the walk
      consistent and only adds to it. */
  lemma AddChildConsistent(u: Universe, w: Walk, key: int, child: ChildDef, ext: bool)
    requires Consistent(u, w)
    requires child.name !in w.names && !child.NarrativeChild?
    requires key !in (if ext then w.exts else w.elems)
    ensures var w1 := w.(names := w.names + {child.name},
                         scanAlso := w.scanAlso + Queued(u, child),
                         codeTables := w.codeTables + CodeTables(child));
      var w' := if ext then w1.(exts := w.exts[key := child]) else w1.(elems := w.elems[key := child]);
      Consistent(u, w') && Grows(w, w')
  {
    var w1 := w.(names := w.names + {child.name},
                 scanAlso := w.scanAlso + Queued(u, child),
                 codeTables := w.codeTables + CodeTables(child));
    assert Consistent(u, w1);
    if ext {
      AddToMapConsistent(u, w1, key, child, true);
    } else {
      AddToMapConsistent(u, w1, key, child, false);
    }
  }

  /** The map half of `AddChildConsistent`: the name and the queued classes
      are already recorded. */
  lemma AddToMapConsistent(u: Universe, w: Walk, key: int, child: ChildDef, ext: bool)
    requires Consistent(u, w)
    requires child.name in w.names && !child.NarrativeChild? && Queued(u, child) <= w.scanAlso
    requires forall k :: k in w.elems ==> w.elems[k].name != child.name
    requires forall k :: k in w.exts ==> w.exts[k].name != child.name
    requires key !in (if ext then w.exts else w.elems)
    ensures var w' := if ext then w.(exts := w.exts[key := child]) else w.(elems := w.elems[key := child]);
      Consistent(u, w') && Grows(w, w')
  {
    if ext {
      var w' := w.(exts := w.exts[key := child]);
      assert NamesDistinct(w'.exts);
      assert forall k1, k2 :: k1 in w'.elems && k2 in w'.exts ==> w'.elems[k1].name != w'.exts[k2].name;
    } else {
      var w' := w.(elems := w.elems[key := child]);
      assert NamesDistinct(w'.elems);
      assert forall k1, k2 :: k1 in w'.elems && k2 in w'.exts ==> w'.elems[k1].name != w'.exts[k2].name;
    }
  }

  /** `w'` extends `w`: nothing recorded in the walk is ever taken back. */
  ghost predicate Grows(w: Walk, w': Walk) {
    && w.names <= w'.names
    && w.elems.Keys <= w'.elems.Keys
    && w.exts.Keys <= w'.exts.Keys
    && w.scanAlso <= w'.scanAlso
    && w.codeTables <= w'.codeTables
    && (forall k :: k in w.elems ==> w'.elems[k] == w.elems[k])
    && (forall k :: k in w.exts ==> w'.exts[k] == w.exts[k])
    && w.narratives <= w'.narratives
  }

  lemma {:induction false} WalkFieldsConsistent(u: Universe, fs: seq<FieldInfo>, w: Walk)
    requires Consistent(u, w)
    requires WalkFields(u, fs, w).Ok?
    ensures Consistent(u, WalkFields(u, fs, w).value)
    ensures Grows(w, WalkFields(u, fs, w).value)
    decreases |fs|
  {
    if fs != [] {
      IntrospectFieldConsistent(u, fs[0], w);
      var w1 := IntrospectField(u, fs[0], w).value;
      WalkFieldsConsistent(u, fs[1..], w1);
    }
  }

  /** Walking `a + b` is walking `a`, then walking `b` from where `a` left off. */
  lemma {:induction false} WalkFieldsAppend(u: Universe, a: seq<FieldInfo>, b: seq<FieldInfo>, w: Walk)
    ensures WalkFields(u, a + b, w) ==
      match WalkFields(u, a, w)
      case Ok(w1) => WalkFields(u, b, w1)
      case Err(e) => Err(e)
    decreases |a|
  {
    if a == [] {
      assert a + b == b;
    } else {
      assert (a + b)[0] == a[0];
      assert (a + b)[1..] == a[1..] + b;
      match IntrospectField(u, a[0], w)
      case Ok(w1) => WalkFieldsAppend(u, a[1..], b, w1);
      case Err(_) =>
    }
  }

  /** After walking `fs`, every child field of `fs` has its name recorded and
      every explicitly ordered one has its order taken in its map. */
  lemma {:induction false} WalkFieldsRecords(u: Universe, fs: seq<FieldInfo>, w: Walk, i: int)
    requires 0 <= i < |fs| && IsChildField(fs[i])
    requires WalkFields(u, fs, w).Ok?
    ensures fs[i].child.value.name in WalkFields(u, fs, w).value.names
    ensures fs[i].child.value.order != OrderUnknown ==>
      fs[i].child.value.order in TargetMap(fs[i], WalkFields(u, fs, w).value)
    ensures fs[i].child.value.order == OrderUnknown ==>
      OrderUnknown in TargetMap(fs[i], WalkFields(u, fs, w).value)
    decreases |fs|
  {
    var w1 := IntrospectField(u, fs[0], w).value;
    if i == 0 {
      WalkFieldsGrows(u, fs[1..], w1);
    } else {
      WalkFieldsRecords(u, fs[1..], w1, i - 1);
    }
  }

  lemma {:induction false} WalkFieldsGrows(u: Universe, fs: seq<FieldInfo>, w: Walk)
    requires WalkFields(u, fs, w).Ok?
    ensures w.names <= WalkFields(u, fs, w).value.names
    ensures w.elems.Keys <= WalkFields(u, fs, w).value.elems.Keys
    ensures w.exts.Keys <= WalkFields(u, fs, w).value.exts.Keys
    ensures forall k :: k in w.elems ==> WalkFields(u, fs, w).value.elems[k] == w.elems[k]
    ensures forall k :: k in w.exts ==> WalkFields(u, fs, w).value.exts[k] == w.exts[k]
    decreases |fs|
  {
    if fs != [] {
      WalkFieldsGrows(u, fs[1..], IntrospectField(u, fs[0], w).value);
    }
  }

  /** Two walks that agree on everything but the scanner-wide sets. */
  predicate SameShape(w: Walk, w': Walk) {
    w.names == w'.names && w.elems == w'.elems && w.exts == w'.exts && w.narratives == w'.narratives
  }

  /** What the field loop decides and records does not depend on the classes
      queued or code tables collected before it. */
  lemma {:induction false} WalkFieldsIndependent(u: Universe, fs: seq<FieldInfo>, w: Walk, w': Walk)
    requires SameShape(w, w')
    ensures WalkFields(u, fs, w).Ok? == WalkFields(u, fs, w').Ok?
    ensures WalkFields(u, fs, w).Err? ==> WalkFields(u, fs, w).error == WalkFields(u, fs, w').error
    ensures WalkFields(u, fs, w).Ok? ==> SameShape(WalkFields(u, fs, w).value, WalkFields(u, fs, w').value)
    decreases |fs|
  {
    if fs != [] {
      var r := IntrospectField(u, fs[0], w);
      var r' := IntrospectField(u, fs[0], w');
      assert r.Ok? == r'.Ok?;
      if r.Ok? {
        assert SameShape(r.value, r'.value);
        WalkFieldsIndependent(u, fs[1..], r.value, r'.value);
      }
    }
  }

  /** After walking `fs`, the child built from each child field of `fs` sits
      in the map that field chose. */
  lemma {:induction false} WalkFieldsPlaces(u: Universe, fs: seq<FieldInfo>, w: Walk, i: int)
    requires 0 <= i < |fs| && IsChildField(fs[i])
    requires WalkFields(u, fs, w).Ok?
    ensures FieldChild(u, fs[i]).Ok?
    ensures exists k :: (k in TargetMap(fs[i], WalkFields(u, fs, w).value) &&
      TargetMap(fs[i], WalkFields(u, fs, w).value)[k] == FieldChild(u, fs[i]).value)
    decreases |fs|
  {
    var w1 := IntrospectField(u, fs[0], w).value;
    if i == 0 {
      var key := OrderKey(fs[0].child.value.order, TargetMap(fs[0], w));
      WalkFieldsGrows(u, fs[1..], w1);
      assert key in TargetMap(fs[0], WalkFields(u, fs, w).value);
    } else {
      WalkFieldsPlaces(u, fs[1..], w1, i - 1);
    }
  }

  /** Two child fields of the same name anywhere in the walked sequence are fatal. */
  lemma DuplicateNameRejected(u: Universe, fs: seq<FieldInfo>, w: Walk, i: int, j: int)
    requires 0 <= i < j < |fs|
    requires IsChildField(fs[i]) && IsChildField(fs[j])
    requires fs[i].child.value.name == fs[j].child.value.name
    ensures WalkFields(u, fs, w).Err?
  {
    WalkFieldsAppend(u, fs[..j], fs[j..], w);
    assert fs == fs[..j] + fs[j..];
    var before := WalkFields(u, fs[..j], w);
    if before.Ok? {
      WalkFieldsRecords(u, fs[..j], w, i);
      assert fs[j..][0] == fs[j];
    }
  }

  /** Two child fields with the same explicit order in the same map anywhere
      in the walked sequence are fatal. */
  lemma DuplicateOrderRejected(u: Universe, fs: seq<FieldInfo>, w: Walk, i: int, j: int)
    requires 0 <= i < j < |fs|
    requires IsChildField(fs[i]) && IsChildField(fs[j])
    requires fs[i].extension.Some? == fs[j].extension.Some?
    requires fs[i].child.value.order == fs[j].child.value.order != OrderUnknown
    ensures WalkFields(u, fs, w).Err?
  {
    WalkFieldsAppend(u, fs[..j], fs[j..], w);
    assert fs == fs[..j] + fs[j..];
    var before := WalkFields(u, fs[..j], w);
    if before.Ok? {
      WalkFieldsRecords(u, fs[..j], w, i);
      assert fs[j..][0] == fs[j];
    }
  }

  /** Once both the sentinel and the key below it are taken, a later child
      field without an order collides. */
  lemma LaterUnknownOrderRejected(u: Universe, fs: seq<FieldInfo>, w: Walk, k: int)
    requires 0 <= k < |fs| && IsChildField(fs[k])
    requires fs[k].child.value.order == OrderUnknown
    requires OrderUnknown in TargetMap(fs[k], w) && OrderUnknown - 1 in TargetMap(fs[k], w)
    ensures WalkFields(u, fs, w).Err?
  {
    assert fs == fs[..k] + fs[k..];
    WalkFieldsAppend(u, fs[..k], fs[k..], w);
    var mid := WalkFields(u, fs[..k], w);
    if mid.Ok? {
      WalkFieldsGrows(u, fs[..k], w);
      assert fs[k..][0] == fs[k];
      assert OrderKey(OrderUnknown, TargetMap(fs[k], mid.value)) == OrderUnknown - 1;
    }
  }

  /** The unknown order is decremented at most once, so a third child field
      without an order in the same map collides with the second. */
  lemma ThirdUnknownOrderRejected(u: Universe, fs: seq<FieldInfo>, w: Walk, i: int, j: int, k: int)
    requires 0 <= i < j < k < |fs|
    requires IsChildField(fs[i]) && IsChildField(fs[j]) && IsChildField(fs[k])
    requires fs[i].extension.Some? == fs[j].extension.Some? == fs[k].extension.Some?
    requires fs[i].child.value.order == fs[j].child.value.order == fs[k].child.value.order == OrderUnknown
    ensures WalkFields(u, fs, w).Err?
  {
    assert fs == fs[..j] + fs[j..];
    WalkFieldsAppend(u, fs[..j], fs[j..], w);
    var before := WalkFields(u, fs[..j], w);
    if before.Ok? {
      WalkFieldsRecords(u, fs[..j], w, i);
      var rest := fs[j..];
      assert rest[0] == fs[j];
      var w1 := before.value;
      var second := IntrospectField(u, fs[j], w1);
      if second.Ok? {
        // the second unknown-order field took the key one below the sentinel
        assert OrderUnknown - 1 in TargetMap(fs[j], second.value);
        assert OrderUnknown in TargetMap(fs[j], second.value);
        var tail := rest[1..];
        assert tail == fs[j+1..];
        assert WalkFields(u, rest, w1) == WalkFields(u, tail, second.value);
        LaterUnknownOrderRejected(u, tail, second.value, k - j - 1);
      }
    }
  }
}
