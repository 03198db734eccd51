/** The link side of merging two golden resources: the links pointing at the
    deactivated ("from") resource are moved to the surviving ("to") one under
    a MANUAL-over-AUTO precedence rule, the leftover AUTO links are deleted,
    and a MANUAL REDIRECT link records the merge. The link table is a finite
    map from link id to link record; every DAO call is a pure update of it. */
module GoldenMerge {
  import opened Results
  import Ordering

  /** A resource's persistent id (`Long`). */
  type Pid = int

  /** A link row's primary key. */
  type LinkId = int

  /** `EmpiLinkSourceEnum`. */
  datatype LinkSource = Auto | Manual

  /** `EmpiMatchResultEnum`. */
  datatype MatchResult = NoMatch | PossibleMatch | Match | PossibleDuplicate | Redirect

  /** The fields of an `EmpiLink` the merge reads or writes. */
  datatype Link = Link(golden: Pid, target: Pid, source: LinkSource, result: MatchResult, targetType: string)

  /** The link table. */
  type Store = map<LinkId, Link>

  /** A link entity as the DAO hands it out: its id and the record read. */
  datatype StoredLink = StoredLink(id: LinkId, link: Link)

  /** The `InvalidRequestException` of a MANUAL link merged into a MANUAL
      link with another match result. */
  datatype MergeError = ManualConflict(fromResult: MatchResult, toResult: MatchResult)

  /** The rows of `s` at the given ids, in that order. */
  function Rows(s: Store, ids: seq<LinkId>): (r: seq<StoredLink>)
    requires forall i :: 0 <= i < |ids| ==> ids[i] in s
    ensures |r| == |ids|
    ensures forall i :: 0 <= i < |r| ==> r[i] == StoredLink(ids[i], s[ids[i]])
  {
    if ids == [] then [] else [StoredLink(ids[0], s[ids[0]])] + Rows(s, ids[1..])
  }

  /** `findEmpiLinksByGoldenResource`: the links whose golden resource is
      `g`, in ascending id order. */
  function LinksByGolden(s: Store, g: Pid): (r: seq<StoredLink>)
    ensures forall i :: 0 <= i < |r| ==> r[i].id in s && s[r[i].id] == r[i].link && r[i].link.golden == g
    ensures forall id :: id in s && s[id].golden == g ==> StoredLink(id, s[id]) in r
    ensures forall i, j :: 0 <= i < j < |r| ==> r[i].id < r[j].id
  {
    var keys := set id | id in s && s[id].golden == g;
    var ids := Ordering.Ascending(keys);
    RowsCover(s, keys, ids);
    Rows(s, ids)
  }

  lemma RowsCover(s: Store, keys: set<LinkId>, ids: seq<LinkId>)
    requires keys <= s.Keys
    requires forall x :: x in keys ==> x in ids
    requires forall i :: 0 <= i < |ids| ==> ids[i] in keys
    ensures forall id :: id in keys ==> StoredLink(id, s[id]) in Rows(s, ids)
  {
    forall id | id in keys
      ensures StoredLink(id, s[id]) in Rows(s, ids)
    {
      var i :| 0 <= i < |ids| && ids[i] == id;
      assert Rows(s, ids)[i] == StoredLink(id, s[id]);
    }
  }

  /** `links[i]` is the first link of `links` aimed at `target`. */
  predicate FirstMatchAt(links: seq<StoredLink>, target: Pid, i: int) {
    && 0 <= i < |links|
    && links[i].link.target == target
    && forall j :: 0 <= j < i ==> links[j].link.target != target
  }

  /** `findFirstLinkWithMatchingTarget`: the first link of `links`, in list
      order, with the same target as `l`. */
  function FindFirstLinkWithMatchingTarget(links: seq<StoredLink>, l: Link): (r: Option<StoredLink>)
    ensures r.None? <==> forall i :: 0 <= i < |links| ==> links[i].link.target != l.target
    ensures r.Some? ==> exists i :: FirstMatchAt(links, l.target, i) && links[i] == r.value
  {
    if links == [] then None
    else if links[0].link.target == l.target then
      assert FirstMatchAt(links, l.target, 0);
      Some(links[0])
    else
      var r := FindFirstLinkWithMatchingTarget(links[1..], l);
      assert r.Some? ==> exists i :: FirstMatchAt(links, l.target, i) && links[i] == r.value by {
        if r.Some? {
          var k :| FirstMatchAt(links[1..], l.target, k) && links[1..][k] == r.value;
          assert forall j :: 1 <= j < k + 1 ==> links[j] == links[1..][j - 1];
          assert FirstMatchAt(links, l.target, k + 1);
        }
      }
      assert r.None? ==> forall i :: 0 <= i < |links| ==> links[i].link.target != l.target by {
        if r.None? {
          assert forall i :: 1 <= i < |links| ==> links[i] == links[1..][i - 1];
        }
      }
      r
  }

  /** The from-link `f`, saved after being re-pointed at the to-resource. */
  function Moved(s: Store, f: StoredLink, toPid: Pid): Store {
    s[f.id := f.link.(golden := toPid)]
  }

  /** One iteration of the loop of `mergeGoldenResourceLinks`. */
  function MergeOne(s: Store, f: StoredLink, toLinks: seq<StoredLink>, toPid: Pid): (r: Result<Store, MergeError>)
    ensures FindFirstLinkWithMatchingTarget(toLinks, f.link).None? ==> r == Ok(Moved(s, f, toPid))
    ensures f.link.source == Auto && FindFirstLinkWithMatchingTarget(toLinks, f.link).Some? ==> r == Ok(s)
    ensures f.link.source == Manual && FindFirstLinkWithMatchingTarget(toLinks, f.link).Some? ==>
      var t := FindFirstLinkWithMatchingTarget(toLinks, f.link).value;
      && (t.link.source == Auto ==> r == Ok(Moved(s - {t.id}, f, toPid)))
      && (t.link.source == Manual && f.link.result != t.link.result ==> r == Err(ManualConflict(f.link.result, t.link.result)))
      && (t.link.source == Manual && f.link.result == t.link.result ==> r == Ok(Moved(s, f, toPid)))
  {
    match FindFirstLinkWithMatchingTarget(toLinks, f.link)
    case None => Ok(Moved(s, f, toPid))
    case Some(t) =>
      if f.link.source == Auto then Ok(s)
      else if t.link.source == Auto then Ok(Moved(s - {t.id}, f, toPid))
      else if f.link.result != t.link.result then Err(ManualConflict(f.link.result, t.link.result))
      else Ok(Moved(s, f, toPid))
  }

  /** The loop of `mergeGoldenResourceLinks` over the from-links, against the
      to-link list read once before it. */
  function MergeLoop(s: Store, fromLinks: seq<StoredLink>, toLinks: seq<StoredLink>, toPid: Pid): Result<Store, MergeError>
    decreases |fromLinks|
  {
    if fromLinks == [] then Ok(s)
    else
      var s1 :- MergeOne(s, fromLinks[0], toLinks, toPid);
      MergeLoop(s1, fromLinks[1..], toLinks, toPid)
  }

  /** `mergeGoldenResourceLinks`. */
  function MergeGoldenResourceLinks(s: Store, fromPid: Pid, toPid: Pid): Result<Store, MergeError> {
    MergeLoop(s, LinksByGolden(s, fromPid), LinksByGolden(s, toPid), toPid)
  }

  // ---------------------------------------------------------------------
  // The merge rule, stated link by link.

  /** What the merge does with one from-link, judged against the to-links. */
  datatype Action = Move | Replace(deleted: LinkId) | Stay | Conflict

  /** The precedence rule: a from-link whose target no to-link has moves; an
      AUTO from-link whose target a to-link has stays; a MANUAL one replaces
      an AUTO to-link, joins a MANUAL one with the same match result, and
      conflicts with a MANUAL one with another result. */
  function Decide(f: Link, toLinks: seq<StoredLink>): Action {
    match FindFirstLinkWithMatchingTarget(toLinks, f)
    case None => Move
    case Some(t) =>
      if f.source == Auto then Stay
      else if t.link.source == Auto then Replace(t.id)
      else if f.result != t.link.result then Conflict
      else Move
  }

  predicate Moves(a: Action) {
    a.Move? || a.Replace?
  }

  /** No from-link conflicts. */
  predicate NoConflict(fromLinks: seq<StoredLink>, toLinks: seq<StoredLink>) {
    forall i :: 0 <= i < |fromLinks| ==> !Decide(fromLinks[i].link, toLinks).Conflict?
  }

  /** Some from-link replaces to-link `id`. */
  predicate DeletedBy(fromLinks: seq<StoredLink>, toLinks: seq<StoredLink>, id: LinkId) {
    exists i :: 0 <= i < |fromLinks| && Decide(fromLinks[i].link, toLinks) == Replace(id)
  }

  /** The record the merge saves under `id`, if a from-link with that id moves. */
  function MovedRecord(fromLinks: seq<StoredLink>, toLinks: seq<StoredLink>, toPid: Pid, id: LinkId): Option<Link> {
    if fromLinks == [] then None
    else if fromLinks[0].id == id && Moves(Decide(fromLinks[0].link, toLinks)) then Some(fromLinks[0].link.(golden := toPid))
    else MovedRecord(fromLinks[1..], toLinks, toPid, id)
  }

  /** The table after the merge, link by link: replaced to-links are gone,
      moving from-links point at the to-resource, all else is as it was. */
  function MergedStore(s: Store, fromLinks: seq<StoredLink>, toLinks: seq<StoredLink>, toPid: Pid): Store {
    map id | id in s && !DeletedBy(fromLinks, toLinks, id) ::
      if MovedRecord(fromLinks, toLinks, toPid, id).Some? then MovedRecord(fromLinks, toLinks, toPid, id).value else s[id]
  }

  /** The from-links are distinct rows of `s`, none of them a to-link. */
  ghost predicate Separate(s: Store, fromLinks: seq<StoredLink>, toLinks: seq<StoredLink>) {
    && (forall i :: 0 <= i < |fromLinks| ==> fromLinks[i].id in s)
    && (forall i, j :: 0 <= i < j < |fromLinks| ==> fromLinks[i].id != fromLinks[j].id)
    && (forall i, j :: 0 <= i < |fromLinks| && 0 <= j < |toLinks| ==> fromLinks[i].id != toLinks[j].id)
  }

  /** A replaced link is one of the to-links. */
  lemma ReplacedIsToLink(f: Link, toLinks: seq<StoredLink>)
    requires Decide(f, toLinks).Replace?
    ensures exists j :: 0 <= j < |toLinks| && toLinks[j].id == Decide(f, toLinks).deleted
  {
  }

  /** Ids of the from-links are distinct. */
  ghost predicate DistinctIds(links: seq<StoredLink>) {
    forall i, j :: 0 <= i < j < |links| ==> links[i].id != links[j].id
  }

  /** `MovedRecord` is determined by the one from-link with that id. */
  lemma {:induction false} MovedRecordAt(fromLinks: seq<StoredLink>, toLinks: seq<StoredLink>, toPid: Pid, i: int)
    requires DistinctIds(fromLinks) && 0 <= i < |fromLinks|
    ensures MovedRecord(fromLinks, toLinks, toPid, fromLinks[i].id) ==
      if Moves(Decide(fromLinks[i].link, toLinks)) then Some(fromLinks[i].link.(golden := toPid)) else None
    decreases |fromLinks|
  {
    var id := fromLinks[i].id;
    if i == 0 {
      if !Moves(Decide(fromLinks[0].link, toLinks)) {
        MovedRecordAbsent(fromLinks[1..], toLinks, toPid, id);
      }
    } else {
      assert fromLinks[0].id != id;
      assert fromLinks[1..][i - 1] == fromLinks[i];
      MovedRecordAt(fromLinks[1..], toLinks, toPid, i - 1);
    }
  }

  /** No from-link has the id: nothing is saved under it. */
  lemma {:induction false} MovedRecordAbsent(fromLinks: seq<StoredLink>, toLinks: seq<StoredLink>, toPid: Pid, id: LinkId)
    requires forall i :: 0 <= i < |fromLinks| ==> fromLinks[i].id != id
    ensures MovedRecord(fromLinks, toLinks, toPid, id).None?
    decreases |fromLinks|
  {
    if fromLinks != [] {
      assert forall i :: 0 <= i < |fromLinks[1..]| ==> fromLinks[1..][i] == fromLinks[i + 1];
      MovedRecordAbsent(fromLinks[1..], toLinks, toPid, id);
    }
  }

  /** A proof bridge only: `MergeOne` read through `Decide`, so the loop
      proofs can reason about actions rather than store updates. */
  lemma MergeOneFollowsRule(s: Store, f: StoredLink, toLinks: seq<StoredLink>, toPid: Pid)
    ensures Decide(f.link, toLinks).Move? ==> MergeOne(s, f, toLinks, toPid) == Ok(Moved(s, f, toPid))
    ensures Decide(f.link, toLinks).Replace? ==>
      MergeOne(s, f, toLinks, toPid) == Ok(Moved(s - {Decide(f.link, toLinks).deleted}, f, toPid))
    ensures Decide(f.link, toLinks).Stay? ==> MergeOne(s, f, toLinks, toPid) == Ok(s)
    ensures MergeOne(s, f, toLinks, toPid).Err? <==> Decide(f.link, toLinks).Conflict?
  {
  }

  /** The merge fails exactly when some from-link conflicts. */
  lemma {:induction false} MergeLoopFails(s: Store, fromLinks: seq<StoredLink>, toLinks: seq<StoredLink>, toPid: Pid)
    ensures MergeLoop(s, fromLinks, toLinks, toPid).Ok? <==> NoConflict(fromLinks, toLinks)
    decreases |fromLinks|
  {
    if fromLinks != [] {
      MergeOneFollowsRule(s, fromLinks[0], toLinks, toPid);
      assert NoConflict(fromLinks, toLinks) <==>
        !Decide(fromLinks[0].link, toLinks).Conflict? && NoConflict(fromLinks[1..], toLinks) by {
        assert forall i :: 0 <= i < |fromLinks[1..]| ==> fromLinks[1..][i] == fromLinks[i + 1];
        if !Decide(fromLinks[0].link, toLinks).Conflict? && NoConflict(fromLinks[1..], toLinks) {
          forall i | 0 <= i < |fromLinks|
            ensures !Decide(fromLinks[i].link, toLinks).Conflict?
          {
            if i > 0 { assert fromLinks[i] == fromLinks[1..][i - 1]; }
          }
        }
      }
      var r := MergeOne(s, fromLinks[0], toLinks, toPid);
      if r.Ok? {
        MergeLoopFails(r.value, fromLinks[1..], toLinks, toPid);
      }
    }
  }

  /** Deleting `id` is decided by the first from-link or by the rest. */
  lemma DeletedByCons(fromLinks: seq<StoredLink>, toLinks: seq<StoredLink>, id: LinkId)
    requires fromLinks != []
    ensures DeletedBy(fromLinks, toLinks, id) <==>
      Decide(fromLinks[0].link, toLinks) == Replace(id) || DeletedBy(fromLinks[1..], toLinks, id)
  {
    if DeletedBy(fromLinks[1..], toLinks, id) {
      var i :| 0 <= i < |fromLinks[1..]| && Decide(fromLinks[1..][i].link, toLinks) == Replace(id);
      assert fromLinks[i + 1] == fromLinks[1..][i];
    }
    if DeletedBy(fromLinks, toLinks, id) {
      var i :| 0 <= i < |fromLinks| && Decide(fromLinks[i].link, toLinks) == Replace(id);
      if i > 0 { assert fromLinks[1..][i - 1] == fromLinks[i]; }
    }
  }

  /** Separation survives the first step of the loop. */
  lemma SeparateStep(s: Store, fromLinks: seq<StoredLink>, toLinks: seq<StoredLink>, toPid: Pid)
    requires Separate(s, fromLinks, toLinks) && fromLinks != []
    requires MergeOne(s, fromLinks[0], toLinks, toPid).Ok?
    ensures Separate(MergeOne(s, fromLinks[0], toLinks, toPid).value, fromLinks[1..], toLinks)
  {
    var f := fromLinks[0];
    var s1 := MergeOne(s, f, toLinks, toPid).value;
    MergeOneFollowsRule(s, f, toLinks, toPid);
    var rest := fromLinks[1..];
    assert forall i :: 0 <= i < |rest| ==> rest[i] == fromLinks[i + 1];
    if Decide(f.link, toLinks).Replace? {
      ReplacedIsToLink(f.link, toLinks);
    }
  }

  /** The table after the whole loop, from the table after its first step. */
  lemma MergedStoreStep(s: Store, fromLinks: seq<StoredLink>, toLinks: seq<StoredLink>, toPid: Pid)
    requires Separate(s, fromLinks, toLinks) && fromLinks != []
    requires MergeOne(s, fromLinks[0], toLinks, toPid).Ok?
    ensures MergedStore(MergeOne(s, fromLinks[0], toLinks, toPid).value, fromLinks[1..], toLinks, toPid) ==
      MergedStore(s, fromLinks, toLinks, toPid)
  {
    var f := fromLinks[0];
    var rest := fromLinks[1..];
    var s1 := MergeOne(s, f, toLinks, toPid).value;
    MergeOneFollowsRule(s, f, toLinks, toPid);
    var a := Decide(f.link, toLinks);
    if a.Replace? {
      ReplacedIsToLink(f.link, toLinks);
      assert a.deleted != f.id;
    }
    var lhs := MergedStore(s1, rest, toLinks, toPid);
    var rhs := MergedStore(s, fromLinks, toLinks, toPid);
    assert forall i :: 0 <= i < |rest| ==> rest[i] == fromLinks[i + 1];
    MovedRecordAbsent(rest, toLinks, toPid, f.id);
    forall id
      ensures id in lhs <==> id in rhs
      ensures id in lhs ==> lhs[id] == rhs[id]
    {
      DeletedByCons(fromLinks, toLinks, id);
      if id == f.id {
        assert !DeletedBy(fromLinks, toLinks, id) by {
          if DeletedBy(fromLinks, toLinks, id) {
            var i :| 0 <= i < |fromLinks| && Decide(fromLinks[i].link, toLinks) == Replace(id);
            ReplacedIsToLink(fromLinks[i].link, toLinks);
          }
        }
      }
    }
    assert lhs == rhs;
  }

  /** The loop, link by link: under separation, a successful merge leaves
      exactly the table `MergedStore` describes. */
  lemma {:induction false} MergeLoopStore(s: Store, fromLinks: seq<StoredLink>, toLinks: seq<StoredLink>, toPid: Pid)
    requires Separate(s, fromLinks, toLinks)
    requires MergeLoop(s, fromLinks, toLinks, toPid).Ok?
    ensures MergeLoop(s, fromLinks, toLinks, toPid).value == MergedStore(s, fromLinks, toLinks, toPid)
    decreases |fromLinks|
  {
    if fromLinks == [] {
      assert MergedStore(s, fromLinks, toLinks, toPid) == s;
    } else {
      var s1 := MergeOne(s, fromLinks[0], toLinks, toPid).value;
      SeparateStep(s, fromLinks, toLinks, toPid);
      MergeLoopStore(s1, fromLinks[1..], toLinks, toPid);
      MergedStoreStep(s, fromLinks, toLinks, toPid);
    }
  }

  /** `mergeGoldenResourceLinks` between two distinct golden resources: it
      fails exactly when some from-link conflicts, and otherwise leaves the
      table that the precedence rule describes link by link, judged against
      the to-links as they were before the loop. */
  lemma MergeGoldenResourceLinksSpec(s: Store, fromPid: Pid, toPid: Pid)
    requires fromPid != toPid
    ensures var fromLinks, toLinks := LinksByGolden(s, fromPid), LinksByGolden(s, toPid);
      && (MergeGoldenResourceLinks(s, fromPid, toPid).Ok? <==> NoConflict(fromLinks, toLinks))
      && (MergeGoldenResourceLinks(s, fromPid, toPid).Ok? ==>
            MergeGoldenResourceLinks(s, fromPid, toPid).value == MergedStore(s, fromLinks, toLinks, toPid))
  {
    var fromLinks, toLinks := LinksByGolden(s, fromPid), LinksByGolden(s, toPid);
    MergeLoopFails(s, fromLinks, toLinks, toPid);
    assert Separate(s, fromLinks, toLinks);
    if MergeGoldenResourceLinks(s, fromPid, toPid).Ok? {
      MergeLoopStore(s, fromLinks, toLinks, toPid);
    }
  }

  // ---------------------------------------------------------------------
  // removeTargetLinks

  /** The AUTO links among `links` are deleted, one by one. */
  function DeleteAuto(s: Store, links: seq<StoredLink>): Store
    decreases |links|
  {
    if links == [] then s
    else DeleteAuto(if links[0].link.source == Auto then s - {links[0].id} else s, links[1..])
  }

  /** `removeTargetLinks`: delete the AUTO links of the from-resource. */
  function RemoveTargetLinks(s: Store, fromPid: Pid): Store {
    DeleteAuto(s, LinksByGolden(s, fromPid))
  }

  /** Some AUTO link among `links` has the id. */
  predicate AutoAmong(links: seq<StoredLink>, id: LinkId) {
    exists i :: 0 <= i < |links| && links[i].id == id && links[i].link.source == Auto
  }

  /** Deleting the AUTO links one by one deletes exactly them. */
  lemma {:induction false} DeleteAutoSpec(s: Store, links: seq<StoredLink>)
    ensures DeleteAuto(s, links) == map id | id in s && !AutoAmong(links, id) :: s[id]
    decreases |links|
  {
    if links == [] {
      assert DeleteAuto(s, links) == s;
    } else {
      var l := links[0];
      var s1 := if l.link.source == Auto then s - {l.id} else s;
      DeleteAutoSpec(s1, links[1..]);
      forall id
        ensures AutoAmong(links, id) <==> (l.id == id && l.link.source == Auto) || AutoAmong(links[1..], id)
      {
        if AutoAmong(links[1..], id) {
          var i :| 0 <= i < |links[1..]| && links[1..][i].id == id && links[1..][i].link.source == Auto;
          assert links[i + 1] == links[1..][i];
        }
        if AutoAmong(links, id) {
          var i :| 0 <= i < |links| && links[i].id == id && links[i].link.source == Auto;
          if i > 0 { assert links[1..][i - 1] == links[i]; }
        }
      }
    }
  }

  /** `removeTargetLinks` deletes exactly the AUTO links whose golden
      resource is the from-resource; MANUAL links and other resources' links
      stay as they are. */
  lemma RemoveTargetLinksSpec(s: Store, fromPid: Pid)
    ensures RemoveTargetLinks(s, fromPid) == map id | id in s && !(s[id].golden == fromPid && s[id].source == Auto) :: s[id]
  {
    var links := LinksByGolden(s, fromPid);
    DeleteAutoSpec(s, links);
    forall id | id in s
      ensures AutoAmong(links, id) <==> s[id].golden == fromPid && s[id].source == Auto
    {
      if s[id].golden == fromPid {
        assert StoredLink(id, s[id]) in links;
      }
    }
  }

  // ---------------------------------------------------------------------
  // addMergeLink

  /** The link `getOrCreateEmpiLinkBySourceResourcePidAndTargetResourcePid`
      finds for the pair, if there is one (the lowest id). */
  function FindPair(s: Store, golden: Pid, target: Pid): (r: Option<LinkId>)
    ensures r.None? <==> forall id :: id in s ==> !(s[id].golden == golden && s[id].target == target)
    ensures r.Some? ==> r.value in s && s[r.value].golden == golden && s[r.value].target == target
    ensures r.Some? ==> forall id :: id in s && s[id].golden == golden && s[id].target == target ==> r.value <= id
  {
    var ids := set id | id in s && s[id].golden == golden && s[id].target == target;
    assert forall id :: id in s && s[id].golden == golden && s[id].target == target ==> id in ids;
    if ids == {} then None else Some(Ordering.Least(ids))
  }

  /** The record `addMergeLink` saves. */
  function MergeLinkRecord(active: Pid, deactivated: Pid, targetType: string): Link {
    Link(active, deactivated, Manual, Redirect, targetType)
  }

  /** `addMergeLink`: the link for the (active, deactivated) pair, existing
      or new (with id `newId`), becomes a MANUAL REDIRECT link of the given
      target type. */
  function AddMergeLink(s: Store, active: Pid, deactivated: Pid, targetType: string, newId: LinkId): (r: Store)
    requires newId !in s
    ensures FindPair(s, active, deactivated).Some? ==>
      r == s[FindPair(s, active, deactivated).value := MergeLinkRecord(active, deactivated, targetType)]
    ensures FindPair(s, active, deactivated).None? ==> r == s[newId := MergeLinkRecord(active, deactivated, targetType)]
  {
    var id := match FindPair(s, active, deactivated) case Some(x) => x case None => newId;
    s[id := MergeLinkRecord(active, deactivated, targetType)]
  }

  /** After `addMergeLink` the pair has a MANUAL REDIRECT link; no link of
      another pair changes; a link is created only when the pair had none. */
  lemma AddMergeLinkSpec(s: Store, active: Pid, deactivated: Pid, targetType: string, newId: LinkId)
    requires newId !in s
    ensures var r := AddMergeLink(s, active, deactivated, targetType, newId);
      && (exists id :: id in r && r[id] == MergeLinkRecord(active, deactivated, targetType))
      && (forall id :: id in s && !(s[id].golden == active && s[id].target == deactivated) ==> id in r && r[id] == s[id])
      && (r.Keys == s.Keys <==> exists id :: id in s && s[id].golden == active && s[id].target == deactivated)
      && (r.Keys != s.Keys ==> r.Keys == s.Keys + {newId})
  {
    var r := AddMergeLink(s, active, deactivated, targetType, newId);
    match FindPair(s, active, deactivated)
    case Some(x) =>
      assert r[x] == MergeLinkRecord(active, deactivated, targetType);
    case None =>
      assert r[newId] == MergeLinkRecord(active, deactivated, targetType);
      assert newId in r.Keys - s.Keys;
  }

  /** Recording the same merge twice changes nothing the second time. */
  lemma AddMergeLinkIdempotent(s: Store, active: Pid, deactivated: Pid, targetType: string, newId: LinkId, newId2: LinkId)
    requires newId !in s
    requires newId2 !in AddMergeLink(s, active, deactivated, targetType, newId)
    ensures var r := AddMergeLink(s, active, deactivated, targetType, newId);
      AddMergeLink(r, active, deactivated, targetType, newId2) == r
  {
    var r := AddMergeLink(s, active, deactivated, targetType, newId);
    var id := match FindPair(s, active, deactivated) case Some(x) => x case None => newId;
    assert r[id].golden == active && r[id].target == deactivated;
    var id2 := FindPair(r, active, deactivated).value;
    assert id2 == id by {
      assert id2 <= id;
      if FindPair(s, active, deactivated).None? {
        assert id2 == newId || id2 in s;
      }
    }
  }

  // ---------------------------------------------------------------------
  // The link side of mergeGoldenResources

  /** The loop only ever writes ids of from-links. */
  lemma {:induction false} MergeLoopKeys(s: Store, fromLinks: seq<StoredLink>, toLinks: seq<StoredLink>, toPid: Pid, ids: set<LinkId>)
    requires s.Keys <= ids
    requires forall i :: 0 <= i < |fromLinks| ==> fromLinks[i].id in ids
    requires MergeLoop(s, fromLinks, toLinks, toPid).Ok?
    ensures MergeLoop(s, fromLinks, toLinks, toPid).value.Keys <= ids
    decreases |fromLinks|
  {
    if fromLinks != [] {
      var s1 := MergeOne(s, fromLinks[0], toLinks, toPid).value;
      assert forall i :: 0 <= i < |fromLinks[1..]| ==> fromLinks[1..][i] == fromLinks[i + 1];
      MergeLoopKeys(s1, fromLinks[1..], toLinks, toPid, ids);
    }
  }

  lemma MergeKeys(s: Store, fromPid: Pid, toPid: Pid)
    requires MergeGoldenResourceLinks(s, fromPid, toPid).Ok?
    ensures MergeGoldenResourceLinks(s, fromPid, toPid).value.Keys <= s.Keys
    ensures RemoveTargetLinks(MergeGoldenResourceLinks(s, fromPid, toPid).value, fromPid).Keys <= s.Keys
  {
    MergeLoopKeys(s, LinksByGolden(s, fromPid), LinksByGolden(s, toPid), toPid, s.Keys);
    RemoveTargetLinksSpec(MergeGoldenResourceLinks(s, fromPid, toPid).value, fromPid);
  }

  /** The link updates of `mergeGoldenResources`: merge the links, delete
      the leftover AUTO links of the from-resource, record the merge. */
  function MergeGoldenResources(s: Store, fromPid: Pid, toPid: Pid, targetType: string, newId: LinkId): Result<Store, MergeError>
    requires newId !in s
  {
    var s1 :- MergeGoldenResourceLinks(s, fromPid, toPid);
    MergeKeys(s, fromPid, toPid);
    var s2 := RemoveTargetLinks(s1, fromPid);
    Ok(AddMergeLink(s2, toPid, fromPid, targetType, newId))
  }

  /** After a successful merge of two distinct golden resources no link
      points at the from-resource any more, every MANUAL link that did is
      now the to-resource's (unless it is itself the merge link), and the
      merge is recorded by a MANUAL REDIRECT link from the to-resource to
      the from-resource. */
  lemma MergeGoldenResourcesSpec(s: Store, fromPid: Pid, toPid: Pid, targetType: string, newId: LinkId)
    requires newId !in s && fromPid != toPid
    requires MergeGoldenResources(s, fromPid, toPid, targetType, newId).Ok?
    ensures var r := MergeGoldenResources(s, fromPid, toPid, targetType, newId).value;
      && (forall id :: id in r ==> r[id].golden != fromPid)
      && (forall id :: id in s && s[id].golden == fromPid && s[id].source == Manual && s[id].target != fromPid ==>
            id in r && r[id] == s[id].(golden := toPid))
      && (exists id :: id in r && r[id] == MergeLinkRecord(toPid, fromPid, targetType))
  {
    var fromLinks, toLinks := LinksByGolden(s, fromPid), LinksByGolden(s, toPid);
    MergeGoldenResourceLinksSpec(s, fromPid, toPid);
    var s1 := MergeGoldenResourceLinks(s, fromPid, toPid).value;
    MergeKeys(s, fromPid, toPid);
    var s2 := RemoveTargetLinks(s1, fromPid);
    RemoveTargetLinksSpec(s1, fromPid);
    var r := AddMergeLink(s2, toPid, fromPid, targetType, newId);
    AddMergeLinkSpec(s2, toPid, fromPid, targetType, newId);
    assert DistinctIds(fromLinks);
    LeftOnFromAreAuto(s, fromPid, toPid);
    forall id | id in s && s[id].golden == fromPid && s[id].source == Manual && s[id].target != fromPid
      ensures id in r && r[id] == s[id].(golden := toPid)
    {
      ManualFromLinkMoves(s, fromPid, toPid, id);
    }
  }

  /** After the merge loop the only links still on the from-resource are AUTO. */
  lemma LeftOnFromAreAuto(s: Store, fromPid: Pid, toPid: Pid)
    requires fromPid != toPid
    requires MergeGoldenResourceLinks(s, fromPid, toPid).Ok?
    ensures var s1 := MergeGoldenResourceLinks(s, fromPid, toPid).value;
      forall id :: id in s1 && s1[id].golden == fromPid ==> s1[id].source == Auto
  {
    var fromLinks, toLinks := LinksByGolden(s, fromPid), LinksByGolden(s, toPid);
    MergeGoldenResourceLinksSpec(s, fromPid, toPid);
    LeftBehindAreAuto(s, fromLinks, toLinks, fromPid, toPid);
  }

  lemma LeftBehindAreAuto(s: Store, fromLinks: seq<StoredLink>, toLinks: seq<StoredLink>, fromPid: Pid, toPid: Pid)
    requires fromPid != toPid && NoConflict(fromLinks, toLinks) && DistinctIds(fromLinks)
    requires forall id :: id in s && s[id].golden == fromPid ==> StoredLink(id, s[id]) in fromLinks
    ensures var s1 := MergedStore(s, fromLinks, toLinks, toPid);
      forall id :: id in s1 && s1[id].golden == fromPid ==> s1[id].source == Auto
  {
    var s1 := MergedStore(s, fromLinks, toLinks, toPid);
    forall id | id in s1 && s1[id].golden == fromPid
      ensures s1[id].source == Auto
    {
      MovedRecordGolden(fromLinks, toLinks, toPid, id);
      assert MovedRecord(fromLinks, toLinks, toPid, id).None?;
      assert s1[id] == s[id];
      var i :| 0 <= i < |fromLinks| && fromLinks[i] == StoredLink(id, s[id]);
      MovedRecordAt(fromLinks, toLinks, toPid, i);
      assert !Decide(fromLinks[i].link, toLinks).Conflict?;
      StayIsAuto(fromLinks[i].link, toLinks);
    }
  }

  /** Only AUTO from-links stay where they are. */
  lemma StayIsAuto(f: Link, toLinks: seq<StoredLink>)
    ensures Decide(f, toLinks).Stay? ==> f.source == Auto
  {
  }

  /** Saved records point at the to-resource. */
  lemma {:induction false} MovedRecordGolden(fromLinks: seq<StoredLink>, toLinks: seq<StoredLink>, toPid: Pid, id: LinkId)
    ensures MovedRecord(fromLinks, toLinks, toPid, id).Some? ==> MovedRecord(fromLinks, toLinks, toPid, id).value.golden == toPid
    decreases |fromLinks|
  {
    if fromLinks != [] {
      MovedRecordGolden(fromLinks[1..], toLinks, toPid, id);
    }
  }

  /** The from-link a saved record comes from. */
  lemma {:induction false} MovedIndex(fromLinks: seq<StoredLink>, toLinks: seq<StoredLink>, toPid: Pid, id: LinkId) returns (i: int)
    requires MovedRecord(fromLinks, toLinks, toPid, id).Some?
    ensures 0 <= i < |fromLinks| && fromLinks[i].id == id
    decreases |fromLinks|
  {
    if fromLinks[0].id == id && Moves(Decide(fromLinks[0].link, toLinks)) {
      i := 0;
    } else {
      var k := MovedIndex(fromLinks[1..], toLinks, toPid, id);
      i := k + 1;
      assert fromLinks[i] == fromLinks[1..][k];
    }
  }

  /** A MANUAL from-link survives the whole merge, re-pointed at the to-resource. */
  lemma ManualFromLinkMoves(s: Store, fromPid: Pid, toPid: Pid, id: LinkId)
    requires fromPid != toPid
    requires id in s && s[id].golden == fromPid && s[id].source == Manual
    requires MergeGoldenResourceLinks(s, fromPid, toPid).Ok?
    ensures var s1 := MergeGoldenResourceLinks(s, fromPid, toPid).value;
      id in s1 && s1[id] == s[id].(golden := toPid)
  {
    var fromLinks, toLinks := LinksByGolden(s, fromPid), LinksByGolden(s, toPid);
    MergeGoldenResourceLinksSpec(s, fromPid, toPid);
    assert StoredLink(id, s[id]) in fromLinks;
    var i :| 0 <= i < |fromLinks| && fromLinks[i] == StoredLink(id, s[id]);
    ManualMoves(s, fromLinks, toLinks, toPid, i);
  }

  lemma ManualMoves(s: Store, fromLinks: seq<StoredLink>, toLinks: seq<StoredLink>, toPid: Pid, i: int)
    requires Separate(s, fromLinks, toLinks) && NoConflict(fromLinks, toLinks)
    requires 0 <= i < |fromLinks| && fromLinks[i].link.source == Manual
    ensures var s1 := MergedStore(s, fromLinks, toLinks, toPid);
      fromLinks[i].id in s1 && s1[fromLinks[i].id] == fromLinks[i].link.(golden := toPid)
  {
    var id := fromLinks[i].id;
    assert !Decide(fromLinks[i].link, toLinks).Conflict?;
    StayIsAuto(fromLinks[i].link, toLinks);
    MovedRecordAt(fromLinks, toLinks, toPid, i);
    assert !DeletedBy(fromLinks, toLinks, id) by {
      if DeletedBy(fromLinks, toLinks, id) {
        var j :| 0 <= j < |fromLinks| && Decide(fromLinks[j].link, toLinks) == Replace(id);
        ReplacedIsToLink(fromLinks[j].link, toLinks);
      }
    }
  }
}
