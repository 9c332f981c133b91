/**
 * The verification engine of one pack's checklist (`initChecklist`, `verificarItem` and
 * `checkGroupComplete`). Items are told apart by a tagged union instead of the `esGrupo`
 * flag, which the page reads as `esGrupo === true && Array.isArray(items)` when it renders
 * and as a plain truthy `esGrupo` when it handles a click.
 */
module Checklist {
  import opened Wrappers
  import Text

  /** What the page displays of an item or sub-item: nombre, cantidad, unidad. */
  datatype Info = Info(name: string, quantity: string, unit: Option<string>)

  /** A sub-item of a group: its id (assigned when the group is rendered) and its flag. */
  datatype SubItem = SubItem(info: Info, id: Option<string>, verified: bool)

  /** A top-level entry of a pack. */
  datatype Item = Simple(info: Info) | Group(info: Info, subs: seq<SubItem>)

  // ---------------------------------------------------------------------------
  // Group completion and sub-item lookup
  // ---------------------------------------------------------------------------

  /** `checkGroupComplete`: every sub-item verified; vacuously so when there is none. */
  function GroupComplete(subs: seq<SubItem>): (r: bool)
    ensures r <==> forall j :: 0 <= j < |subs| ==> subs[j].verified
  {
    |subs| == 0 || (subs[0].verified && GroupComplete(subs[1..]))
  }

  /** `items.find(sub => sub.id === id)`: the position of the first sub-item with that id. */
  function FindSub(subs: seq<SubItem>, id: string): (r: Option<nat>)
    ensures r.Some? ==> r.value < |subs| && subs[r.value].id == Some(id)
    ensures r.Some? ==> forall j :: 0 <= j < r.value ==> subs[j].id != Some(id)
    ensures r.None? ==> forall j :: 0 <= j < |subs| ==> subs[j].id != Some(id)
  {
    if |subs| == 0 then None
    else if subs[0].id == Some(id) then Some(0)
    else match FindSub(subs[1..], id)
      case None => None
      case Some(j) => Some(j + 1)
  }

  /** The lookup depends on the ids alone: changing flags does not change what it finds. */
  lemma {:induction false} FindSubSameIds(a: seq<SubItem>, b: seq<SubItem>, id: string)
    requires |a| == |b| && forall k :: 0 <= k < |a| ==> a[k].id == b[k].id
    ensures FindSub(a, id) == FindSub(b, id)
  {
    if |a| > 0 {
      FindSubSameIds(a[1..], b[1..], id);
    }
  }

  /** The id the page gives sub-item `subIndex` of item `index`: `sub-<index>-<subIndex>`. */
  function SubId(index: nat, subIndex: nat): string
  {
    "sub-" + Text.IntToString(index) + "-" + Text.IntToString(subIndex)
  }

  /** Different positions get different ids, within a group and across groups. */
  lemma SubIdInjective(i: nat, j: nat, i': nat, j': nat)
    requires SubId(i, j) == SubId(i', j')
    ensures i == i' && j == j'
  {
    var a, b := Text.NatToString(i), Text.NatToString(j);
    var a', b' := Text.NatToString(i'), Text.NatToString(j');
    assert Text.IntToString(i) == a && Text.IntToString(j) == b;
    assert Text.IntToString(i') == a' && Text.IntToString(j') == b';
    Text.NoDashInDecimal(i);
    Text.NoDashInDecimal(i');
    SubIdParts(a, b, a', b');
    Text.NatToStringInjective(i, i');
    Text.NatToStringInjective(j, j');
  }

  /** `sub-<a>-<b>` determines a and b when a holds no dash. */
  lemma SubIdParts(a: string, b: string, a': string, b': string)
    requires '-' !in a && '-' !in a'
    requires "sub-" + a + "-" + b == "sub-" + a' + "-" + b'
    ensures a == a' && b == b'
  {
    assert "sub-" + a + "-" + b == "sub-" + (a + "-" + b);
    assert "sub-" + a' + "-" + b' == "sub-" + (a' + "-" + b');
    PrefixCancels("sub-", a + "-" + b, a' + "-" + b');
    Text.DashSeparated(a, b, a', b');
  }

  lemma PrefixCancels(p: string, x: string, y: string)
    requires p + x == p + y
    ensures x == y
  {
    assert x == (p + x)[|p|..];
    assert y == (p + y)[|p|..];
  }

  /** The sub-items of group `index` with the ids the render loop writes into them. */
  function AssignIds(subs: seq<SubItem>, index: nat): (r: seq<SubItem>)
    ensures |r| == |subs|
    ensures forall j :: 0 <= j < |r| ==>
      r[j] == subs[j].(id := Some(SubId(index, j)))
  {
    seq(|subs|, j requires 0 <= j < |subs| => subs[j].(id := Some(SubId(index, j))))
  }

  /** Once ids are assigned, looking up `sub-<index>-<j>` finds exactly sub-item j. */
  lemma FindAssigned(subs: seq<SubItem>, index: nat, j: nat)
    requires j < |subs|
    ensures FindSub(AssignIds(subs, index), SubId(index, j)) == Some(j)
  {
    var labelled := AssignIds(subs, index);
    assert labelled[j].id == Some(SubId(index, j));
    var found := FindSub(labelled, SubId(index, j));
    SubIdInjective(index, found.value, index, j);
  }

  /** What `initChecklist` leaves in memory for item `index` when it renders it. */
  function Rendered(item: Item, index: nat): (r: Item)
    ensures r.Group? == item.Group? && r.info == item.info
    ensures r.Group? ==> |r.subs| == |item.subs| && forall j :: 0 <= j < |r.subs| ==>
      && r.subs[j].info == item.subs[j].info
      && r.subs[j].verified == item.subs[j].verified
      && r.subs[j].id == Some(SubId(index, j))
  {
    match item
    case Simple(_) => item
    case Group(info, subs) => Group(info, AssignIds(subs, index))
  }

  /** The engine's copy of the pack after `initChecklist`: pre-verified items are skipped. */
  function InitialItems(pack: seq<Item>, preVerified: set<int>): (r: seq<Item>)
    ensures |r| == |pack|
    ensures forall i :: 0 <= i < |pack| ==>
      r[i] == if i in preVerified then pack[i] else Rendered(pack[i], i)
  {
    seq(|pack|, i requires 0 <= i < |pack| => if i in preVerified then pack[i] else Rendered(pack[i], i))
  }

  /** The group checkbox's `forEach(sub => sub.verificado = true)`; a simple item is unchanged. */
  function MarkAll(item: Item): (r: Item)
    ensures item.Simple? ==> r == item
    ensures item.Group? ==> r.Group? && r.info == item.info && |r.subs| == |item.subs|
    ensures item.Group? ==> GroupComplete(r.subs)
    ensures item.Group? ==> forall j :: 0 <= j < |r.subs| ==>
      r.subs[j].info == item.subs[j].info && r.subs[j].id == item.subs[j].id
  {
    match item
    case Simple(_) => item
    case Group(info, subs) =>
      Group(info, seq(|subs|, j requires 0 <= j < |subs| => subs[j].(verified := true)))
  }

  /** `subItem.verificado = true` for sub-item j of a group. */
  function MarkSub(item: Item, j: nat): (r: Item)
    requires item.Group? && j < |item.subs|
    ensures r.Group? && r.info == item.info && |r.subs| == |item.subs|
    ensures r.subs[j].verified
    ensures forall k :: 0 <= k < |r.subs| && k != j ==> r.subs[k] == item.subs[k]
    ensures forall k :: 0 <= k < |r.subs| ==>
      r.subs[k].info == item.subs[k].info && r.subs[k].id == item.subs[k].id
  {
    Group(item.info, item.subs[j := item.subs[j].(verified := true)])
  }

  /**
   * Completing a group through its last unverified sub-item leaves the group exactly as
   * a click on the group's own checkbox would.
   */
  lemma LastSubEqualsGroupCheckbox(item: Item, j: nat)
    requires item.Group? && j < |item.subs|
    requires GroupComplete(MarkSub(item, j).subs)
    ensures MarkSub(item, j) == MarkAll(item)
  {
    var bySub, byBox := MarkSub(item, j), MarkAll(item);
    forall k | 0 <= k < |item.subs|
      ensures bySub.subs[k] == byBox.subs[k]
    {
      assert bySub.subs[k].verified && byBox.subs[k].verified;
    }
    assert bySub.subs == byBox.subs;
  }

  /** Setting one flag first does not change what the group checkbox leaves. */
  lemma MarkAllAbsorbsMarkSub(item: Item, j: nat)
    requires item.Group? && j < |item.subs|
    ensures MarkAll(MarkSub(item, j)) == MarkAll(item)
  {
    var once, direct := MarkAll(MarkSub(item, j)), MarkAll(item);
    forall k | 0 <= k < |item.subs|
      ensures once.subs[k] == direct.subs[k]
    {
      assert once.subs[k].verified && direct.subs[k].verified;
    }
    assert once.subs == direct.subs;
  }

  /**
   * Sub-item clicks at positions `clicks`, in order: sub-item k ends verified exactly when
   * it already was or k was clicked; nothing else about the group changes.
   */
  function MarkSubs(item: Item, clicks: seq<nat>): (r: Item)
    requires item.Group? && forall c :: c in clicks ==> c < |item.subs|
    ensures r.Group? && r.info == item.info && |r.subs| == |item.subs|
    ensures forall k :: 0 <= k < |r.subs| ==>
      r.subs[k] == item.subs[k].(verified := item.subs[k].verified || k in clicks)
  {
    if clicks == [] then item
    else
      var earlier, last := clicks[..|clicks| - 1], clicks[|clicks| - 1];
      assert clicks == earlier + [last];
      assert forall c :: c in clicks <==> c in earlier || c == last;
      assert last in clicks;
      MarkSub(MarkSubs(item, earlier), last)
  }

  /**
   * Clicking every sub-item of a group, in any order and with repeats, leaves it exactly
   * as one click on the group's own checkbox does.
   */
  lemma EverySubEqualsGroupCheckbox(item: Item, clicks: seq<nat>)
    requires item.Group? && forall c :: c in clicks ==> c < |item.subs|
    requires forall k :: 0 <= k < |item.subs| ==> k in clicks
    ensures MarkSubs(item, clicks) == MarkAll(item)
  {
    var bySubs, byBox := MarkSubs(item, clicks), MarkAll(item);
    forall k | 0 <= k < |item.subs|
      ensures bySubs.subs[k] == byBox.subs[k]
    {
      assert bySubs.subs[k].verified && byBox.subs[k].verified;
    }
    assert bySubs.subs == byBox.subs;
  }

  /** A group of three sub-items clicked one by one ends as one group checkbox click leaves it. */
  lemma ThreeSubsEqualCheckbox(g: Item)
    requires g.Group? && |g.subs| == 3
    ensures MarkSub(MarkSub(MarkSub(g, 0), 1), 2) == MarkAll(g)
  {
    var clicks: seq<nat> := [0, 1, 2];
    assert clicks[..2] == [0, 1] && [0, 1][..1] == [0] && [0][..0] == [];
    assert MarkSubs(g, clicks) == MarkSub(MarkSub(MarkSub(g, 0), 1), 2);
    EverySubEqualsGroupCheckbox(g, clicks);
  }

  /**
   * What a click on sub-item `subId` of item `index` finds: the position of that
   * sub-item, when `index` is a group, the id is known and the sub-item is not yet
   * verified; otherwise the click has no effect.
   */
  function SubTarget(items: seq<Item>, index: int, subId: string): (r: Option<nat>)
    ensures r.Some? ==> 0 <= index < |items| && items[index].Group? && r.value < |items[index].subs|
    ensures r.Some? ==> items[index].subs[r.value].id == Some(subId) && !items[index].subs[r.value].verified
    ensures forall j ::
      (0 <= index < |items| && items[index].Group? && 0 <= j < |items[index].subs| &&
       FindSub(items[index].subs, subId) == Some(j) && !items[index].subs[j].verified) ==> r == Some(j)
    ensures r.Some? ==> FindSub(items[index].subs, subId) == r
  {
    if 0 <= index < |items| && items[index].Group? then
      match FindSub(items[index].subs, subId)
      case Some(j) => if items[index].subs[j].verified then None else Some(j)
      case None => None
    else None
  }

  // ---------------------------------------------------------------------------
  // Counting
  // ---------------------------------------------------------------------------

  /** The top-level positions of a pack of n items that are not in `verified`. */
  function Unverified(n: nat, verified: set<int>): (r: set<int>)
    ensures forall k :: k in r <==> 0 <= k < n && k !in verified
  {
    set k | 0 <= k < n && k !in verified
  }

  /** The members of `verified` that are positions of a pack of n items. */
  function VerifiedInRange(n: nat, verified: set<int>): (r: set<int>)
    ensures forall k :: k in r <==> 0 <= k < n && k in verified
  {
    set k | 0 <= k < n && k in verified
  }

  /** Extending the pack by position i adds i to the unverified positions unless it is verified. */
  lemma UnverifiedStep(i: nat, verified: set<int>)
    ensures |Unverified(i + 1, verified)| == |Unverified(i, verified)| + (if i in verified then 0 else 1)
  {
    if i in verified {
      assert Unverified(i + 1, verified) == Unverified(i, verified);
    } else {
      assert Unverified(i + 1, verified) == Unverified(i, verified) + {i};
    }
  }

  /** The pending count as `number of items - number of them verified`. */
  lemma {:induction false} UnverifiedCount(n: nat, verified: set<int>)
    ensures |Unverified(n, verified)| == n - |VerifiedInRange(n, verified)|
  {
    if n > 0 {
      UnverifiedCount(n - 1, verified);
      var k := n - 1;
      if k in verified {
        assert Unverified(n, verified) == Unverified(k, verified);
        assert VerifiedInRange(n, verified) == VerifiedInRange(k, verified) + {k};
      } else {
        assert Unverified(n, verified) == Unverified(k, verified) + {k};
        assert VerifiedInRange(n, verified) == VerifiedInRange(k, verified);
      }
    } else {
      assert Unverified(n, verified) == {};
      assert VerifiedInRange(n, verified) == {};
    }
  }

  /** Verifying one more position in range moves it from one side of the count to the other. */
  lemma VerifyOne(n: nat, verified: set<int>, index: int)
    requires 0 <= index < n && index !in verified
    ensures Unverified(n, verified + {index}) == Unverified(n, verified) - {index}
    ensures VerifiedInRange(n, verified + {index}) == VerifiedInRange(n, verified) + {index}
  {
    assert Unverified(n, verified + {index}) == Unverified(n, verified) - {index};
    assert VerifiedInRange(n, verified + {index}) == VerifiedInRange(n, verified) + {index};
  }

  /** Scheduling the removal of a newly verified position keeps one entry per rendered verified position. */
  lemma ScheduleOne(n: nat, verified: set<int>, skipped: set<int>, scheduled: seq<int>, index: int)
    requires 0 <= index < n && index !in verified
    requires forall k :: k in scheduled <==> k in VerifiedInRange(n, verified) && k !in skipped
    requires forall a, b :: 0 <= a < b < |scheduled| ==> scheduled[a] != scheduled[b]
    requires skipped <= VerifiedInRange(n, verified)
    ensures forall k :: k in scheduled + [index] <==> k in VerifiedInRange(n, verified + {index}) && k !in skipped
    ensures forall a, b :: 0 <= a < b < |scheduled + [index]| ==> (scheduled + [index])[a] != (scheduled + [index])[b]
  {
    VerifyOne(n, verified, index);
    var s := scheduled + [index];
    forall a, b | 0 <= a < b < |s|
      ensures s[a] != s[b]
    {
      if b == |scheduled| {
        assert s[a] in scheduled;
      } else {
        assert s[a] == scheduled[a] && s[b] == scheduled[b];
      }
    }
  }

  /** Indices `initChecklist` is given for items the pack does not have change nothing it counts or renders. */
  lemma OutOfRangeIgnored(pack: seq<Item>, preVerified: set<int>)
    ensures InitialItems(pack, preVerified) == InitialItems(pack, VerifiedInRange(|pack|, preVerified))
    ensures Unverified(|pack|, preVerified) == Unverified(|pack|, VerifiedInRange(|pack|, preVerified))
  {
  }

  /** `after` is `before` with at most its flags changed: same kind, same sub-item ids. */
  predicate SameIds(before: Item, after: Item) {
    && before.Group? == after.Group?
    && (before.Group? ==>
          && |after.subs| == |before.subs|
          && forall j :: 0 <= j < |before.subs| ==> after.subs[j].id == before.subs[j].id)
  }

  /**
   * The engine's invariant: the count is the number of unverified positions; skipped
   * positions were pre-verified; a rendered group that is verified is complete and its
   * sub-items carry the ids `sub-<i>-<j>`; one removal is scheduled per position verified
   * by a click.
   */
  ghost predicate Consistent(items: seq<Item>, verified: set<int>, pending: int, skipped: set<int>, scheduled: seq<int>) {
    && pending == |Unverified(|items|, verified)|
    && skipped <= VerifiedInRange(|items|, verified)
    && (forall i :: 0 <= i < |items| && i !in skipped && items[i].Group? ==>
          (i in verified ==> GroupComplete(items[i].subs)))
    && (forall i, j :: 0 <= i < |items| && i !in skipped && items[i].Group? && 0 <= j < |items[i].subs| ==>
          items[i].subs[j].id == Some(SubId(i, j)))
    && (forall k :: k in scheduled <==> k in VerifiedInRange(|items|, verified) && k !in skipped)
    && (forall a, b :: 0 <= a < b < |scheduled| ==> scheduled[a] != scheduled[b])
  }

  /** The state `initChecklist` sets up satisfies the invariant. */
  lemma InitialConsistent(pack: seq<Item>, preVerified: set<int>)
    ensures Consistent(InitialItems(pack, preVerified), preVerified, |Unverified(|pack|, preVerified)|,
                       VerifiedInRange(|pack|, preVerified), [])
  {
    var items := InitialItems(pack, preVerified);
    forall i, j | 0 <= i < |items| && i !in VerifiedInRange(|pack|, preVerified) && items[i].Group? && 0 <= j < |items[i].subs|
      ensures items[i].subs[j].id == Some(SubId(i, j))
    {
      assert items[i] == Rendered(pack[i], i);
    }
  }

  /** Verifying an unverified position, with its group (if any) complete, keeps the invariant. */
  lemma VerifiedKeepsConsistent(items: seq<Item>, verified: set<int>, pending: int, skipped: set<int>,
                                scheduled: seq<int>, index: int, item: Item)
    requires Consistent(items, verified, pending, skipped, scheduled)
    requires 0 <= index < |items| && index !in verified
    requires SameIds(items[index], item) && (item.Group? ==> GroupComplete(item.subs))
    ensures Consistent(items[index := item], verified + {index}, pending - 1, skipped, scheduled + [index])
  {
    VerifyOne(|items|, verified, index);
    ScheduleOne(|items|, verified, skipped, scheduled, index);
    IdsKept(items, skipped, index, item);
  }

  /** Setting sub-item flags of an unverified group keeps the invariant. */
  lemma MarkedKeepsConsistent(items: seq<Item>, verified: set<int>, pending: int, skipped: set<int>,
                              scheduled: seq<int>, index: int, item: Item)
    requires Consistent(items, verified, pending, skipped, scheduled)
    requires 0 <= index < |items| && index !in verified
    requires SameIds(items[index], item)
    ensures Consistent(items[index := item], verified, pending, skipped, scheduled)
  {
    IdsKept(items, skipped, index, item);
  }

  lemma IdsKept(items: seq<Item>, skipped: set<int>, index: int, item: Item)
    requires 0 <= index < |items| && SameIds(items[index], item)
    requires forall i, j :: 0 <= i < |items| && i !in skipped && items[i].Group? && 0 <= j < |items[i].subs| ==>
      items[i].subs[j].id == Some(SubId(i, j))
    ensures var after := items[index := item];
      forall i, j :: 0 <= i < |after| && i !in skipped && after[i].Group? && 0 <= j < |after[i].subs| ==>
        after[i].subs[j].id == Some(SubId(i, j))
  {
  }

  // ---------------------------------------------------------------------------
  // The engine
  // ---------------------------------------------------------------------------

  /**
   * The module-level state of the checklist page: `packItems` (items), `verifiedIndices`
   * (verified) and `itemsPendientes` (pending). Ghost fields record what the page does
   * besides: the positions it did not render (skipped), the completion signals raised at
   * once (signals), and the removals it scheduled, one per verification, in order.
   */
  class Engine {
    var items: seq<Item>
    var verified: set<int>
    var pending: int
    ghost var skipped: set<int>
    ghost var signals: nat
    ghost var scheduled: seq<int>

    ghost predicate Valid()
      reads this
    {
      Consistent(items, verified, pending, skipped, scheduled)
    }

    /** The count equals the number of items minus the number of them verified. */
    lemma PendingMatchesVerified()
      requires Valid()
      ensures pending == |items| - |VerifiedInRange(|items|, verified)|
      ensures 0 <= pending <= |items|
    {
      UnverifiedCount(|items|, verified);
    }

    /** The pack is finished exactly when the count is zero. */
    lemma CompleteIffNothingPending()
      requires Valid()
      ensures pending == 0 <==> forall i :: 0 <= i < |items| ==> i in verified
    {
      if pending == 0 {
        var u := Unverified(|items|, verified);
        assert u == {};
        forall i | 0 <= i < |items| ensures i in verified {
          assert i !in verified ==> i in u;
        }
      } else {
        var u := Unverified(|items|, verified);
        assert u != {};
        if forall k :: k !in u {
          assert false;  // u is not empty
        }
        var k :| k in u;
      }
    }

    /**
     * `initChecklist(packId, verifiedIndicesSet)` once the pack is found: the engine owns a
     * copy of the items, counts every position not pre-verified, assigns sub-item ids to
     * the groups it renders, and signals completion at once when a non-empty pack has
     * nothing left.
     */
    constructor Init(pack: seq<Item>, preVerified: set<int>)
      ensures Valid()
      ensures items == InitialItems(pack, preVerified)
      ensures verified == preVerified
      ensures skipped == VerifiedInRange(|pack|, preVerified)
      ensures pending == |Unverified(|pack|, preVerified)|
      ensures signals == if pending == 0 && |pack| > 0 then 1 else 0
      ensures scheduled == []
    {
      var copy := pack;
      var count := 0;
      var i := 0;
      while i < |pack|
        invariant 0 <= i <= |pack| && |copy| == |pack|
        invariant forall k :: 0 <= k < i ==> copy[k] == if k in preVerified then pack[k] else Rendered(pack[k], k)
        invariant forall k :: i <= k < |pack| ==> copy[k] == pack[k]
        invariant count == |Unverified(i, preVerified)|
      {
        if i !in preVerified {
          match pack[i] {
            case Simple(_) =>
            case Group(info, subs) =>
            var withIds := subs;
            var j := 0;
            while j < |subs|
              invariant 0 <= j <= |subs| && |withIds| == |subs|
              invariant forall k :: 0 <= k < j ==> withIds[k] == subs[k].(id := Some(SubId(i, k)))
              invariant forall k :: j <= k < |subs| ==> withIds[k] == subs[k]
            {
              withIds := withIds[j := withIds[j].(id := Some(SubId(i, j)))];
              j := j + 1;
            }
            assert withIds == AssignIds(subs, i);
            copy := copy[i := Group(info, withIds)];
          }
          count := count + 1;
        }
        UnverifiedStep(i, preVerified);
        i := i + 1;
      }
      assert copy == InitialItems(pack, preVerified);
      InitialConsistent(pack, preVerified);
      items := copy;
      verified := preVerified;
      pending := count;
      skipped := VerifiedInRange(|pack|, preVerified);
      signals := if count == 0 && |pack| > 0 then 1 else 0;
      scheduled := [];
    }

    /**
     * A click on the checkbox of item `index` (a simple item, or a group's own checkbox).
     * An unknown or already verified index changes nothing. Otherwise a group first has
     * all its sub-items marked, then the index is added, the count drops by exactly one,
     * and the removal of the item is scheduled.
     */
    method VerifyCheckbox(index: int)
      requires Valid()
      modifies this
      ensures Valid()
      ensures skipped == old(skipped) && signals == old(signals)
      ensures !(0 <= index < |old(items)|) || index in old(verified) ==>
        items == old(items) && verified == old(verified) && pending == old(pending) && scheduled == old(scheduled)
      ensures 0 <= index < |old(items)| && index !in old(verified) ==>
        && items == old(items)[index := MarkAll(old(items)[index])]
        && verified == old(verified) + {index}
        && pending == old(pending) - 1
        && scheduled == old(scheduled) + [index]
    {
      if !(0 <= index < |items|) || index in verified {
        return;
      }
      var updated := items[index];
      match items[index] {
        case Simple(_) =>
        case Group(info, subs) =>
        var marked := subs;
        var j := 0;
        while j < |subs|
          invariant 0 <= j <= |subs| && |marked| == |subs|
          invariant forall k :: 0 <= k < j ==> marked[k] == subs[k].(verified := true)
          invariant forall k :: j <= k < |subs| ==> marked[k] == subs[k]
        {
          marked := marked[j := marked[j].(verified := true)];
          j := j + 1;
        }
        updated := Group(info, marked);
      }
      assert updated == MarkAll(items[index]);
      VerifiedKeepsConsistent(items, verified, pending, skipped, scheduled, index, updated);
      items := items[index := updated];
      verified := verified + {index};
      pending := pending - 1;
      scheduled := scheduled + [index];
    }

    /**
     * A click on sub-item `subId` of item `index`. The listener exists only on groups the
     * page rendered, so `index` is not a skipped one. An unknown or already verified
     * sub-item changes nothing. Otherwise that one flag is set; if the group is now
     * complete, the index is added, the count drops by one and the removal is
     * scheduled, just as for the group's checkbox.
     */
    method VerifySubItem(index: int, subId: string)
      requires Valid()
      requires index !in skipped
      modifies this
      ensures Valid()
      ensures skipped == old(skipped) && signals == old(signals)
      ensures SubTarget(old(items), index, subId).None? ==>
        items == old(items) && verified == old(verified) && pending == old(pending) && scheduled == old(scheduled)
      ensures SubTarget(old(items), index, subId).Some? ==>
        var j := SubTarget(old(items), index, subId).value;
        && index !in old(verified)
        && items == old(items)[index := MarkSub(old(items)[index], j)]
        && (GroupComplete(items[index].subs) ==>
              verified == old(verified) + {index} && pending == old(pending) - 1 && scheduled == old(scheduled) + [index])
        && (!GroupComplete(items[index].subs) ==>
              verified == old(verified) && pending == old(pending) && scheduled == old(scheduled))
    {
      var target := SubTarget(items, index, subId);
      if target.None? {
        return;
      }
      var j := target.value;
      var updated := MarkSub(items[index], j);
      if GroupComplete(updated.subs) {
        VerifiedKeepsConsistent(items, verified, pending, skipped, scheduled, index, updated);
        items := items[index := updated];
        verified := verified + {index};
        pending := pending - 1;
        scheduled := scheduled + [index];
      } else {
        MarkedKeepsConsistent(items, verified, pending, skipped, scheduled, index, updated);
        items := items[index := updated];
      }
    }
  }

}
