/** The hierarchy half of `ModelScanner.scanCompositeElementForChildren`:
    walk the ancestor chain base-first through the field introspector with one
    shared name set and two shared order maps, pin an unordered `identifier`
    to the resource's identifier order, and emit both maps in ascending key
    order. */
module Flattener {
  import opened Results
  import opened Metamodel
  import opened Introspector
  import Ordering

  function Superclass(u: Universe, t: TypeId): Option<TypeId> {
    Info(u, t).superclass
  }

  /** Whether the ancestor walk goes on from `t` to its superclass. */
  predicate ContinuesAbove(u: Universe, t: TypeId) {
    Superclass(u, t).Some? && Has(u, Superclass(u, t).value, ICompositeElement)
  }

  /** The classes whose declared fields are scanned for `t`, base first:
      `t` and its chain of `ICompositeElement` superclasses. */
  function Chain(u: Universe, t: TypeId): (r: seq<TypeId>)
    ensures |r| >= 1 && r[|r| - 1] == t
    ensures !ContinuesAbove(u, r[0])
    ensures forall i :: 1 <= i < |r| ==> ContinuesAbove(u, r[i]) && Superclass(u, r[i]) == Some(r[i - 1])
    decreases t
  {
    if ContinuesAbove(u, t) then Chain(u, Superclass(u, t).value) + [t] else [t]
  }

  /** The declared fields of `levels`, level after level. */
  function DeclaredFields(u: Universe, levels: seq<TypeId>): seq<FieldInfo> {
    if levels == [] then [] else Info(u, levels[0]).fields + DeclaredFields(u, levels[1..])
  }

  /** The per-level loop: each level's fields are introspected with the state
      the previous levels left. */
  function WalkLevels(u: Universe, levels: seq<TypeId>, w: Walk): Result<Walk, ScanError> {
    if levels == [] then Ok(w)
    else
      var w1 :- WalkFields(u, Info(u, levels[0]).fields, w);
      WalkLevels(u, levels[1..], w1)
  }

  /** Sharing one name set and one pair of maps across the levels makes the
      chain behave as one class declaring all its ancestors' fields. */
  lemma {:induction false} WalkLevelsIsOneWalk(u: Universe, levels: seq<TypeId>, w: Walk)
    ensures WalkLevels(u, levels, w) == WalkFields(u, DeclaredFields(u, levels), w)
  {
    if levels != [] {
      WalkFieldsAppend(u, Info(u, levels[0]).fields, DeclaredFields(u, levels[1..]), w);
      match WalkFields(u, Info(u, levels[0]).fields, w)
      case Ok(w1) => WalkLevelsIsOneWalk(u, levels[1..], w1);
      case Err(_) =>
    }
  }

  function NegativeKeys(m: map<int, ChildDef>): (r: set<int>)
    ensures forall k :: k in r <==> k in m && k < 0
  {
    set k | k in m && k < 0
  }

  /** The loop that empties the negative part of the element map: each
      negative-keyed child, lowest key first, must be the `identifier` and is
      put (overwriting) at the identifier order. Blocks and composites have no
      identifier order (`null`); a negative identifier order puts the child back
      among the keys the loop is still taking, and the loop never ends. */
  function Relocate(m: map<int, ChildDef>, idOrder: Option<int>): Result<map<int, ChildDef>, ScanError>
    decreases |NegativeKeys(m)|
  {
    var neg := NegativeKeys(m);
    if neg == {} then Ok(m)
    else
      var k0 := Ordering.Least(neg);
      var rest := m - {k0};
      if m[k0].name != IdentifierName then Err(UnplaceableElement)
      else
        match idOrder
        case None => Err(NullIdentifierOrder)
        case Some(k) =>
          if k >= 0 then
            NextShrinks(m, k);
            Relocate(Next(m, k), idOrder)
          else if exists j :: j in rest && j < k && rest[j].name != IdentifierName then
            Err(UnplaceableElement)
          else
            Err(Diverges)
  }

  /** The lowest negative key of `m`. */
  function FirstNegative(m: map<int, ChildDef>): (k0: int)
    requires NegativeKeys(m) != {}
    ensures k0 in m && k0 < 0
  {
    Ordering.Least(NegativeKeys(m))
  }

  /** One round of the relocation loop with identifier order `k`: the lowest
      negative entry is removed and put at `k`, replacing what was there. */
  function Next(m: map<int, ChildDef>, k: int): map<int, ChildDef>
    requires NegativeKeys(m) != {}
  {
    var k0 := FirstNegative(m);
    (m - {k0})[k := m[k0]]
  }

  lemma NextShrinks(m: map<int, ChildDef>, k: int)
    requires NegativeKeys(m) != {} && k >= 0
    ensures NegativeKeys(Next(m, k)) == NegativeKeys(m) - {FirstNegative(m)}
    ensures |NegativeKeys(Next(m, k))| < |NegativeKeys(m)|
  {
    assert NegativeKeys(Next(m, k)) == NegativeKeys(m) - {FirstNegative(m)};
  }

  /** Whether every negative-keyed child is named `identifier`. */
  predicate OnlyIdentifierUnordered(m: map<int, ChildDef>) {
    forall j :: j in m && j < 0 ==> m[j].name == IdentifierName
  }

  /** The relocation loop succeeds exactly when every negative-keyed child is
      the `identifier` and, if there is one, the identifier order is set and
      not negative; otherwise the failure names the cause. */
  lemma {:induction false} RelocateOutcome(m: map<int, ChildDef>, idOrder: Option<int>)
    ensures Relocate(m, idOrder).Ok? <==>
      NegativeKeys(m) == {} || (idOrder.Some? && idOrder.value >= 0 && OnlyIdentifierUnordered(m))
    ensures Relocate(m, idOrder) == Err(NullIdentifierOrder) ==> idOrder.None?
    ensures Relocate(m, idOrder) == Err(Diverges) ==> idOrder.Some? && idOrder.value < 0
    decreases |NegativeKeys(m)|
  {
    if NegativeKeys(m) != {} {
      var k0 := FirstNegative(m);
      if m[k0].name == IdentifierName && idOrder.Some? && idOrder.value >= 0 {
        var m2 := Next(m, idOrder.value);
        NextShrinks(m, idOrder.value);
        RelocateOutcome(m2, idOrder);
        assert forall j :: j in m2 && j < 0 ==> j in m && m2[j] == m[j];
        assert forall j :: j in m && j < 0 && j != k0 ==> j in m2 && m2[j] == m[j];
      }
    }
  }

  /** After a successful relocation no negative key is left, the identifier
      sits at the identifier order (replacing any child there), and every other
      entry is where it was. */
  lemma {:induction false} RelocateShape(m: map<int, ChildDef>, idOrder: Option<int>)
    requires Relocate(m, idOrder).Ok?
    ensures NegativeKeys(Relocate(m, idOrder).value) == {}
    ensures forall k :: k in m && k >= 0 && Some(k) != idOrder ==>
      k in Relocate(m, idOrder).value && Relocate(m, idOrder).value[k] == m[k]
    ensures forall k :: k in Relocate(m, idOrder).value ==>
      || (k in m && Relocate(m, idOrder).value[k] == m[k])
      || (Some(k) == idOrder && Relocate(m, idOrder).value[k].name == IdentifierName)
    ensures NegativeKeys(m) != {} ==>
      idOrder.value in Relocate(m, idOrder).value && Relocate(m, idOrder).value[idOrder.value].name == IdentifierName
    decreases |NegativeKeys(m)|
  {
    if NegativeKeys(m) != {} {
      var k := idOrder.value;
      var m2 := Next(m, k);
      NextShrinks(m, k);
      RelocateShape(m2, idOrder);
      assert k in m2 && m2[k].name == IdentifierName;
    }
  }

  /** A property of every child survives relocation: relocation only moves
      children, it never makes one up. */
  lemma {:induction false} RelocateKeeps(m: map<int, ChildDef>, idOrder: Option<int>, u: Universe, w: Walk)
    requires Relocate(m, idOrder).Ok?
    requires forall k :: k in m ==> SettledElement(u, w, m[k])
    ensures forall k :: k in Relocate(m, idOrder).value ==> SettledElement(u, w, Relocate(m, idOrder).value[k])
    decreases |NegativeKeys(m)|
  {
    if NegativeKeys(m) != {} {
      var k := idOrder.value;
      NextShrinks(m, k);
      RelocateKeeps(Next(m, k), idOrder, u, w);
    }
  }

  /** Relocation keeps the names of the element children distinct. */
  lemma {:induction false} RelocateDistinct(m: map<int, ChildDef>, idOrder: Option<int>)
    requires Relocate(m, idOrder).Ok?
    requires NamesDistinct(m)
    ensures NamesDistinct(Relocate(m, idOrder).value)
    decreases |NegativeKeys(m)|
  {
    if NegativeKeys(m) != {} {
      var k := idOrder.value;
      var k0 := FirstNegative(m);
      var m2 := Next(m, k);
      forall k1, k2 | k1 in m2 && k2 in m2 && m2[k1].name == m2[k2].name
        ensures k1 == k2
      {
        var o1 := if k1 == k then k0 else k1;
        var o2 := if k2 == k then k0 else k2;
        assert m[o1] == m2[k1] && m[o2] == m2[k2];
      }
      NextShrinks(m, k);
      RelocateDistinct(m2, idOrder);
    }
  }

  /** A child that a walk `w` has fully accounted for: not a narrative, with
      every class it refers to queued, and (for an element child) a name no
      extension child of `w` has. */
  ghost predicate Settled(u: Universe, w: Walk, c: ChildDef) {
    !c.NarrativeChild? && Queued(u, c) <= w.scanAlso
  }

  ghost predicate SettledElement(u: Universe, w: Walk, c: ChildDef) {
    Settled(u, w, c) && forall k :: k in w.exts ==> w.exts[k].name != c.name
  }

  /** One emitted child with the order key it was emitted at. */
  datatype Slot = Slot(key: int, member: Member)

  /** Slot `s` holds the child the element map (for `addChild`) or the
      extension map (for `addExtension`) has at its key. */
  predicate FromMaps(s: Slot, elems: map<int, ChildDef>, exts: map<int, ChildDef>) {
    match s.member
    case AddedChild(c) => s.key in elems && elems[s.key] == c
    case AddedExtension(c) => s.key in exts && exts[s.key] == c
  }

  /** Keys ascend; at one key the element child comes before the extension child. */
  predicate SlotOrder(r: seq<Slot>) {
    forall i, j :: 0 <= i < j < |r| ==>
      || r[i].key < r[j].key
      || (r[i].key == r[j].key && r[i].member.AddedChild? && r[j].member.AddedExtension?)
  }

  /** The loop over an ascending key sequence. */
  function Slots(keys: seq<int>, elems: map<int, ChildDef>, exts: map<int, ChildDef>): seq<Slot>
    decreases |keys|
  {
    if keys == [] then []
    else
      var k := keys[0];
      (if k in elems then [Slot(k, AddedChild(elems[k]))] else [])
      + (if k in exts then [Slot(k, AddedExtension(exts[k]))] else [])
      + Slots(keys[1..], elems, exts)
  }

  lemma {:induction false} SlotsFromMaps(keys: seq<int>, elems: map<int, ChildDef>, exts: map<int, ChildDef>)
    ensures forall i :: 0 <= i < |Slots(keys, elems, exts)| ==>
      Slots(keys, elems, exts)[i].key in keys && FromMaps(Slots(keys, elems, exts)[i], elems, exts)
    decreases |keys|
  {
    if keys != [] {
      SlotsFromMaps(keys[1..], elems, exts);
    }
  }

  lemma {:induction false} SlotsOrdered(keys: seq<int>, elems: map<int, ChildDef>, exts: map<int, ChildDef>)
    requires Ordering.StrictlyIncreasing(keys)
    ensures SlotOrder(Slots(keys, elems, exts))
    decreases |keys|
  {
    if keys != [] {
      var k := keys[0];
      var head := (if k in elems then [Slot(k, AddedChild(elems[k]))] else [])
        + (if k in exts then [Slot(k, AddedExtension(exts[k]))] else []);
      var later := Slots(keys[1..], elems, exts);
      assert Slots(keys, elems, exts) == head + later;
      SlotsOrdered(keys[1..], elems, exts);
      SlotsFromMaps(keys[1..], elems, exts);
      assert forall i :: 0 <= i < |later| ==> k < later[i].key by {
        forall i | 0 <= i < |later|
          ensures k < later[i].key
        {
          var j :| 0 <= j < |keys[1..]| && keys[1..][j] == later[i].key;
          assert keys[0] < keys[j + 1];
        }
      }
      SlotOrderAppend(head, later);
    }
  }

  /** Two ordered runs, every key of the first below every key of the
      second, concatenate to an ordered run. */
  lemma SlotOrderAppend(a: seq<Slot>, b: seq<Slot>)
    requires SlotOrder(a) && SlotOrder(b)
    requires forall i, j :: 0 <= i < |a| && 0 <= j < |b| ==> a[i].key < b[j].key
    ensures SlotOrder(a + b)
  {
  }

  lemma {:induction false} SlotsComplete(keys: seq<int>, elems: map<int, ChildDef>, exts: map<int, ChildDef>)
    ensures forall k :: k in keys && k in elems ==> Slot(k, AddedChild(elems[k])) in Slots(keys, elems, exts)
    ensures forall k :: k in keys && k in exts ==> Slot(k, AddedExtension(exts[k])) in Slots(keys, elems, exts)
    decreases |keys|
  {
    if keys != [] {
      SlotsComplete(keys[1..], elems, exts);
      assert forall k :: k in keys ==> k == keys[0] || k in keys[1..];
    }
  }

  /** The merge of the element and extension maps. */
  function Merge(elems: map<int, ChildDef>, exts: map<int, ChildDef>): seq<Slot> {
    Slots(Ordering.Ascending(elems.Keys + exts.Keys), elems, exts)
  }

  /** The merge emits every child of both maps once, by ascending key, the
      element child before the extension child at a shared key, and nothing
      else. */
  lemma MergeSound(elems: map<int, ChildDef>, exts: map<int, ChildDef>)
    ensures var r := Merge(elems, exts);
      && SlotOrder(r)
      && (forall i :: 0 <= i < |r| ==> FromMaps(r[i], elems, exts))
      && (forall k :: k in elems ==> Slot(k, AddedChild(elems[k])) in r)
      && (forall k :: k in exts ==> Slot(k, AddedExtension(exts[k])) in r)
  {
    var keys := Ordering.Ascending(elems.Keys + exts.Keys);
    SlotsFromMaps(keys, elems, exts);
    SlotsOrdered(keys, elems, exts);
    SlotsComplete(keys, elems, exts);
  }

  function Members(slots: seq<Slot>): (r: seq<Member>)
    ensures |r| == |slots| && forall i :: 0 <= i < |r| ==> r[i] == slots[i].member
  {
    if slots == [] then [] else [slots[0].member] + Members(slots[1..])
  }

  function NarrativeMembers(ns: seq<ChildDef>): (r: seq<Member>)
    ensures |r| == |ns| && forall i :: 0 <= i < |r| ==> r[i] == AddedChild(ns[i])
  {
    if ns == [] then [] else [AddedChild(ns[0])] + NarrativeMembers(ns[1..])
  }

  /** What scanning a composite's children produces: the `addChild` /
      `addExtension` calls in order, and the scanner-wide sets after it. */
  datatype Children = Children(members: seq<Member>, scanAlso: set<TypeId>, codeTables: set<TypeId>)

  /** The walk over the whole ancestor chain of `t`. */
  function WalkChain(u: Universe, t: TypeId, scanAlso: set<TypeId>, codeTables: set<TypeId>): Result<Walk, ScanError> {
    WalkLevels(u, Chain(u, t), StartWalk(scanAlso, codeTables))
  }

  /** Whether asking some class of the ancestor chain of `t` for its
      superclass finds none, which only an interface does there. */
  predicate InterfaceAmong(u: Universe, levels: seq<TypeId>) {
    exists i :: 0 <= i < |levels| && IsInterface(u, levels[i])
  }

  /** Every child in the extension map is an extension definition, so that
      the merge's cast to the extension child type succeeds. */
  predicate ExtensionsDeclared(exts: map<int, ChildDef>) {
    forall k :: k in exts ==> exts[k].ExtensionChild?
  }

  /** `scanCompositeElementForChildren(theClass, theDefinition, theIdentifierOrder)`. */
  function ScanChildren(u: Universe, t: TypeId, idOrder: Option<int>, scanAlso: set<TypeId>, codeTables: set<TypeId>)
    : (r: Result<Children, ScanError>)
    // an interface has no superclass to ask about, before any field is looked at
    ensures IsInterface(u, t) ==> r == Err(InterfaceInChain)
    ensures InterfaceAmong(u, Chain(u, t)) ==> r == Err(InterfaceInChain)
    // otherwise the walk's error, then the relocation's, then the failing cast
    ensures !InterfaceAmong(u, Chain(u, t)) && WalkChain(u, t, scanAlso, codeTables).Err? ==>
      r == Err(WalkChain(u, t, scanAlso, codeTables).error)
    ensures !InterfaceAmong(u, Chain(u, t)) && WalkChain(u, t, scanAlso, codeTables).Ok? ==>
      var w := WalkChain(u, t, scanAlso, codeTables).value;
      && (Relocate(w.elems, idOrder).Err? ==> r == Err(Relocate(w.elems, idOrder).error))
      && (Relocate(w.elems, idOrder).Ok? && !ExtensionsDeclared(w.exts) ==> r == Err(ChoiceInExtensionMap))
      // and with none of these, the class gets its children
      && (Relocate(w.elems, idOrder).Ok? && ExtensionsDeclared(w.exts) ==> r.Ok?)
    // the children come out of the walk, relocated and merged
    ensures r.Ok? ==>
      && WalkChain(u, t, scanAlso, codeTables).Ok?
      && Relocate(WalkChain(u, t, scanAlso, codeTables).value.elems, idOrder).Ok?
      && ExtensionsDeclared(WalkChain(u, t, scanAlso, codeTables).value.exts)
  {
    if InterfaceAmong(u, Chain(u, t)) then
      assert Chain(u, t)[|Chain(u, t)| - 1] == t;
      Err(InterfaceInChain)
    else
      var w :- WalkChain(u, t, scanAlso, codeTables);
      var elems :- Relocate(w.elems, idOrder);
      if !ExtensionsDeclared(w.exts) then Err(ChoiceInExtensionMap)
      else Ok(Children(NarrativeMembers(w.narratives) + Members(Merge(elems, w.exts)), w.scanAlso, w.codeTables))
  }

  /** The members the scan of `t` gives it, however many classes were queued
      and code tables collected beforehand. */
  function ClassChildren(u: Universe, t: TypeId, idOrder: Option<int>): Result<seq<Member>, ScanError> {
    var c :- ScanChildren(u, t, idOrder, {}, {});
    Ok(c.members)
  }

  /** A class's children do not depend on the scanner-wide sets the scan
      starts from: it succeeds or fails the same way and yields the same
      members. */
  lemma ScanChildrenMembers(u: Universe, t: TypeId, idOrder: Option<int>, scanAlso: set<TypeId>, codeTables: set<TypeId>)
    ensures ScanChildren(u, t, idOrder, scanAlso, codeTables).Ok? <==> ClassChildren(u, t, idOrder).Ok?
    ensures ScanChildren(u, t, idOrder, scanAlso, codeTables).Err? ==>
      ClassChildren(u, t, idOrder) == Err(ScanChildren(u, t, idOrder, scanAlso, codeTables).error)
    ensures ScanChildren(u, t, idOrder, scanAlso, codeTables).Ok? ==>
      ClassChildren(u, t, idOrder) == Ok(ScanChildren(u, t, idOrder, scanAlso, codeTables).value.members)
  {
    var chain := Chain(u, t);
    var fs := DeclaredFields(u, chain);
    WalkLevelsIsOneWalk(u, chain, StartWalk(scanAlso, codeTables));
    WalkLevelsIsOneWalk(u, chain, StartWalk({}, {}));
    WalkFieldsIndependent(u, fs, StartWalk(scanAlso, codeTables), StartWalk({}, {}));
  }

  /** A `@Choice` field that also carries `@Extension`, anywhere in the
      ancestor chain, puts a choice child in the extension map: the scan
      fails, by the cast at the merge if nothing fails earlier. */
  lemma ChoiceExtensionRejected(u: Universe, t: TypeId, idOrder: Option<int>, scanAlso: set<TypeId>, codeTables: set<TypeId>, i: int)
    requires var fs := DeclaredFields(u, Chain(u, t));
      && 0 <= i < |fs| && IsChildField(fs[i])
      && fs[i].extension.Some? && |fs[i].child.value.choice| > 0
    ensures ScanChildren(u, t, idOrder, scanAlso, codeTables).Err?
  {
    var fs := DeclaredFields(u, Chain(u, t));
    var w0 := StartWalk(scanAlso, codeTables);
    WalkLevelsIsOneWalk(u, Chain(u, t), w0);
    if !InterfaceAmong(u, Chain(u, t)) && WalkChain(u, t, scanAlso, codeTables).Ok? {
      var w := WalkChain(u, t, scanAlso, codeTables).value;
      WalkFieldsPlaces(u, fs, w0, i);
      var k :| k in w.exts && w.exts[k] == FieldChild(u, fs[i]).value;
      assert w.exts[k].ChoiceChild?;
      assert !ExtensionsDeclared(w.exts);
    }
  }

  /** No interface among `s`. */
  ghost predicate NoInterfaces(u: Universe, s: set<TypeId>) {
    forall x :: x in s ==> !IsInterface(u, x)
  }

  lemma QueuedNoInterfaces(u: Universe, c: ChildDef)
    ensures NoInterfaces(u, Queued(u, c))
  {
  }

  lemma {:induction false} WalkFieldsNoInterfaces(u: Universe, fs: seq<FieldInfo>, w: Walk)
    requires NoInterfaces(u, w.scanAlso)
    requires WalkFields(u, fs, w).Ok?
    ensures NoInterfaces(u, WalkFields(u, fs, w).value.scanAlso)
    decreases |fs|
  {
    if fs != [] {
      var w1 := IntrospectField(u, fs[0], w).value;
      if IsChildField(fs[0]) {
        var key := OrderKey(fs[0].child.value.order, TargetMap(fs[0], w));
        QueuedNoInterfaces(u, TargetMap(fs[0], w1)[key]);
      }
      WalkFieldsNoInterfaces(u, fs[1..], w1);
    }
  }

  /** Every member is settled and no two share a name. */
  ghost predicate SettledAndDistinct(u: Universe, w: Walk, ms: seq<Member>) {
    && (forall i :: 0 <= i < |ms| ==> Settled(u, w, ms[i].child))
    && (forall i, j :: 0 <= i < j < |ms| ==> ms[i].child.name != ms[j].child.name)
  }

  lemma MergedMembersSound(u: Universe, w: Walk, elems: map<int, ChildDef>)
    requires forall k :: k in elems ==> SettledElement(u, w, elems[k])
    requires forall k :: k in w.exts ==> Settled(u, w, w.exts[k])
    requires NamesDistinct(elems) && NamesDistinct(w.exts)
    ensures SettledAndDistinct(u, w, Members(Merge(elems, w.exts)))
  {
    var slots := Merge(elems, w.exts);
    var ms := Members(slots);
    MergeSound(elems, w.exts);
    forall i | 0 <= i < |ms|
      ensures Settled(u, w, ms[i].child)
    {
      assert FromMaps(slots[i], elems, w.exts);
    }
    forall i, j | 0 <= i < j < |ms|
      ensures ms[i].child.name != ms[j].child.name
    {
      var a := slots[i];
      var b := slots[j];
      assert FromMaps(a, elems, w.exts) && FromMaps(b, elems, w.exts);
      assert a.key < b.key || (a.member.AddedChild? && b.member.AddedExtension?);
    }
  }

  /** After a successful walk, the element children are settled (ready for relocation). */
  lemma WalkSettled(u: Universe, w: Walk)
    requires Consistent(u, w)
    ensures forall k :: k in w.elems ==> SettledElement(u, w, w.elems[k])
    ensures forall k :: k in w.exts ==> Settled(u, w, w.exts[k])
  {
  }

  /** What a successful scan of a composite's children guarantees: the
      narrative children come first; among the other children names are
      unique; every class a child refers to has been queued (never an
      interface); the scanner-wide sets only grow. */
  lemma ScanChildrenSound(u: Universe, t: TypeId, idOrder: Option<int>, scanAlso: set<TypeId>, codeTables: set<TypeId>)
    requires ScanChildren(u, t, idOrder, scanAlso, codeTables).Ok?
    ensures var out := ScanChildren(u, t, idOrder, scanAlso, codeTables).value;
      && scanAlso <= out.scanAlso
      && codeTables <= out.codeTables
      && (NoInterfaces(u, scanAlso) ==> NoInterfaces(u, out.scanAlso))
      && MembersWellFormed(u, out.members, out.scanAlso)
      && (forall i :: 0 <= i < |out.members| && out.members[i].AddedExtension? ==> out.members[i].child.ExtensionChild?)
  {
    var w := WalkChain(u, t, scanAlso, codeTables).value;
    var elems := Relocate(w.elems, idOrder).value;
    var out := ScanChildren(u, t, idOrder, scanAlso, codeTables).value;
    ScanChildrenOutput(u, t, idOrder, scanAlso, codeTables);
    WalkChainSound(u, t, scanAlso, codeTables);
    RelocateKeeps(w.elems, idOrder, u, w);
    RelocateDistinct(w.elems, idOrder);
    ChildrenAssembled(u, w, elems);
    assert MembersWellFormed(u, out.members, out.scanAlso);
    ExtensionMembersDeclared(NarrativeMembers(w.narratives), elems, w.exts);
  }

  /** A proof bridge only: on success, spells out the body of `ScanChildren`
      so that callers need not unfold it. */
  lemma ScanChildrenOutput(u: Universe, t: TypeId, idOrder: Option<int>, scanAlso: set<TypeId>, codeTables: set<TypeId>)
    requires ScanChildren(u, t, idOrder, scanAlso, codeTables).Ok?
    ensures var w := WalkChain(u, t, scanAlso, codeTables).value;
      var elems := Relocate(w.elems, idOrder).value;
      ScanChildren(u, t, idOrder, scanAlso, codeTables).value ==
        Children(NarrativeMembers(w.narratives) + Members(Merge(elems, w.exts)), w.scanAlso, w.codeTables)
  {
  }

  /** With only extension definitions in the extension map, every
      `addExtension` call is given one. */
  lemma ExtensionMembersDeclared(ns: seq<Member>, elems: map<int, ChildDef>, exts: map<int, ChildDef>)
    requires forall i :: 0 <= i < |ns| ==> ns[i].AddedChild?
    requires ExtensionsDeclared(exts)
    ensures var ms := ns + Members(Merge(elems, exts));
      forall i :: 0 <= i < |ms| && ms[i].AddedExtension? ==> ms[i].child.ExtensionChild?
  {
    MergeSound(elems, exts);
    var slots := Merge(elems, exts);
    var ms := ns + Members(slots);
    forall i | 0 <= i < |ms| && ms[i].AddedExtension?
      ensures ms[i].child.ExtensionChild?
    {
      assert i >= |ns|;
      assert ms[i] == slots[i - |ns|].member;
      assert FromMaps(slots[i - |ns|], elems, exts);
    }
  }

  /** Narrative members followed by the merged element and extension slots
      form a well-formed member list. */
  lemma ChildrenAssembled(u: Universe, w: Walk, elems: map<int, ChildDef>)
    requires forall k :: k in elems ==> SettledElement(u, w, elems[k])
    requires forall k :: k in w.exts ==> Settled(u, w, w.exts[k])
    requires NamesDistinct(elems) && NamesDistinct(w.exts)
    requires forall i :: 0 <= i < |w.narratives| ==> w.narratives[i].NarrativeChild?
    ensures MembersWellFormed(u, NarrativeMembers(w.narratives) + Members(Merge(elems, w.exts)), w.scanAlso)
  {
    MergedMembersSound(u, w, elems);
    var ns := NarrativeMembers(w.narratives);
    var ms := Members(Merge(elems, w.exts));
    AssembledSound(u, w, ns, ms);
  }

  lemma WalkChainSound(u: Universe, t: TypeId, scanAlso: set<TypeId>, codeTables: set<TypeId>)
    requires WalkChain(u, t, scanAlso, codeTables).Ok?
    ensures var w := WalkChain(u, t, scanAlso, codeTables).value;
      && Consistent(u, w)
      && scanAlso <= w.scanAlso && codeTables <= w.codeTables
      && (NoInterfaces(u, scanAlso) ==> NoInterfaces(u, w.scanAlso))
      && (forall k :: k in w.elems ==> SettledElement(u, w, w.elems[k]))
      && (forall k :: k in w.exts ==> Settled(u, w, w.exts[k]))
  {
    var w0 := StartWalk(scanAlso, codeTables);
    var chain := Chain(u, t);
    WalkLevelsIsOneWalk(u, chain, w0);
    var fs := DeclaredFields(u, chain);
    WalkFieldsConsistent(u, fs, w0);
    var w := WalkChain(u, t, scanAlso, codeTables).value;
    if NoInterfaces(u, scanAlso) {
      WalkFieldsNoInterfaces(u, fs, w0);
    }
    WalkSettled(u, w);
  }

  /** The children of one definition: every class a child refers to is in
      `scanAlso`, the narrative children come first, and the other children have
      distinct names. */
  ghost predicate MembersWellFormed(u: Universe, members: seq<Member>, scanAlso: set<TypeId>) {
    MembersQueued(u, members, scanAlso) && NarrativesFirstDistinct(members)
  }

  /** Every class a member refers to is among `scanAlso`. */
  ghost predicate MembersQueued(u: Universe, members: seq<Member>, scanAlso: set<TypeId>) {
    forall i :: 0 <= i < |members| ==> Queued(u, members[i].child) <= scanAlso
  }

  /** Narrative members come first, and the other members have distinct names. */
  ghost predicate NarrativesFirstDistinct(members: seq<Member>) {
    && (forall i, j :: 0 <= i < j < |members| && !members[i].child.NarrativeChild? ==> !members[j].child.NarrativeChild?)
    && (forall i, j :: 0 <= i < j < |members| && !members[i].child.NarrativeChild? && !members[j].child.NarrativeChild? ==>
          members[i].child.name != members[j].child.name)
  }

  /** Narratives followed by settled, distinctly named merged children. */
  lemma AssembledSound(u: Universe, w: Walk, ns: seq<Member>, ms: seq<Member>)
    requires forall i :: 0 <= i < |ns| ==> ns[i].child.NarrativeChild?
    requires SettledAndDistinct(u, w, ms)
    ensures MembersWellFormed(u, ns + ms, w.scanAlso)
  {
    var all := ns + ms;
    forall i | 0 <= i < |all|
      ensures Queued(u, all[i].child) <= w.scanAlso
    {
      if i >= |ns| { assert all[i] == ms[i - |ns|]; }
    }
    forall i, j | 0 <= i < j < |all| && !all[i].child.NarrativeChild?
      ensures !all[j].child.NarrativeChild?
    {
      assert all[j] == ms[j - |ns|];
    }
    forall i, j | 0 <= i < j < |all| && !all[i].child.NarrativeChild? && !all[j].child.NarrativeChild?
      ensures all[i].child.name != all[j].child.name
    {
      assert all[i] == ms[i - |ns|];
      assert all[j] == ms[j - |ns|];
    }
  }

  /** Two child fields of the same name anywhere in the ancestor chain are fatal. */
  lemma ChainDuplicateNameRejected(u: Universe, t: TypeId, idOrder: Option<int>, scanAlso: set<TypeId>, codeTables: set<TypeId>, i: int, j: int)
    requires var fs := DeclaredFields(u, Chain(u, t));
      && 0 <= i < j < |fs| && IsChildField(fs[i]) && IsChildField(fs[j])
      && fs[i].child.value.name == fs[j].child.value.name
    ensures ScanChildren(u, t, idOrder, scanAlso, codeTables).Err?
  {
    var w0 := StartWalk(scanAlso, codeTables);
    WalkLevelsIsOneWalk(u, Chain(u, t), w0);
    DuplicateNameRejected(u, DeclaredFields(u, Chain(u, t)), w0, i, j);
    assert WalkChain(u, t, scanAlso, codeTables).Err?;
  }

  /** Two child fields with the same explicit order in the same map anywhere in
      the ancestor chain are fatal. */
  lemma ChainDuplicateOrderRejected(u: Universe, t: TypeId, idOrder: Option<int>, scanAlso: set<TypeId>, codeTables: set<TypeId>, i: int, j: int)
    requires var fs := DeclaredFields(u, Chain(u, t));
      && 0 <= i < j < |fs| && IsChildField(fs[i]) && IsChildField(fs[j])
      && fs[i].extension.Some? == fs[j].extension.Some?
      && fs[i].child.value.order == fs[j].child.value.order != OrderUnknown
    ensures ScanChildren(u, t, idOrder, scanAlso, codeTables).Err?
  {
    var w0 := StartWalk(scanAlso, codeTables);
    WalkLevelsIsOneWalk(u, Chain(u, t), w0);
    DuplicateOrderRejected(u, DeclaredFields(u, Chain(u, t)), w0, i, j);
    assert WalkChain(u, t, scanAlso, codeTables).Err?;
  }
}
