/**
 * Client code for the checklist engine: walks through one pack session using only the
 * engine's contracts, as the page's click handlers would drive it.
 */
module ChecklistScenarios {
  import opened Wrappers
  import opened Checklist

  function Entry(name: string): Info { Info(name, "1", None) }

  /** The pack [Simple A, Group {x, y}, Simple B]. */
  function SamplePack(): seq<Item>
  {
    [ Simple(Entry("A")),
      Group(Entry("G"), [SubItem(Entry("x"), None, false), SubItem(Entry("y"), None, false)]),
      Simple(Entry("B")) ]
  }

  lemma ThreeUnverified(pre: set<int>)
    requires pre == {}
    ensures Unverified(3, pre) == {0, 1, 2}
  {
  }

  /** A fresh session: verify A, then x, then y (completing the group), then B. */
  method FreshSession()
  {
    var pack := SamplePack();
    ThreeUnverified({});
    var e := new Engine.Init(pack, {});
    assert e.pending == 3 && e.signals == 0;
    assert e.items[1] == Group(Entry("G"), AssignIds(pack[1].subs, 1));
    e.VerifyCheckbox(0);
    assert e.pending == 2 && e.verified == {0} && e.scheduled == [0];
    GroupBySubItems(e, pack[1].subs);
    SecondHalf(e);
  }

  /** Verifying x leaves the group pending; verifying y completes it. */
  method GroupBySubItems(e: Engine, subs: seq<SubItem>)
    requires e.Valid() && |e.items| == 3 && e.items[2].Simple? && e.skipped == {}
    requires subs == SamplePack()[1].subs && e.items[1] == Group(Entry("G"), AssignIds(subs, 1))
    requires e.pending == 2 && e.verified == {0} && e.scheduled == [0]
    modifies e
    ensures e.Valid() && |e.items| == 3 && e.items[2].Simple?
    ensures e.pending == 1 && e.verified == {0, 1} && e.scheduled == [0, 1]
  {
    FirstSubItem(e, subs);
    LastSubItem(e, subs);
  }

  /** The first sub-item: only its flag changes, the group stays pending. */
  method FirstSubItem(e: Engine, subs: seq<SubItem>)
    requires e.Valid() && |e.items| == 3 && e.items[2].Simple? && e.skipped == {}
    requires subs == SamplePack()[1].subs && e.items[1] == Group(Entry("G"), AssignIds(subs, 1))
    requires e.pending == 2 && e.verified == {0} && e.scheduled == [0]
    modifies e
    ensures e.Valid() && |e.items| == 3 && e.items[2].Simple? && e.skipped == {}
    ensures e.items[1] == Group(Entry("G"), AssignIds(subs, 1)[0 := AssignIds(subs, 1)[0].(verified := true)])
    ensures e.pending == 2 && e.verified == {0} && e.scheduled == [0]
  {
    FindAssigned(subs, 1, 0);
    assert SubTarget(e.items, 1, SubId(1, 0)) == Some(0);
    e.VerifySubItem(1, SubId(1, 0));
    assert !e.items[1].subs[1].verified;
  }

  /** The last sub-item completes the group, which then counts as verified. */
  method LastSubItem(e: Engine, subs: seq<SubItem>)
    requires e.Valid() && |e.items| == 3 && e.items[2].Simple? && e.skipped == {}
    requires subs == SamplePack()[1].subs
    requires e.items[1] == Group(Entry("G"), AssignIds(subs, 1)[0 := AssignIds(subs, 1)[0].(verified := true)])
    requires e.pending == 2 && e.verified == {0} && e.scheduled == [0]
    modifies e
    ensures e.Valid() && |e.items| == 3 && e.items[2].Simple?
    ensures e.pending == 1 && e.verified == {0, 1} && e.scheduled == [0, 1]
  {
    FindAssigned(subs, 1, 1);
    FindSubSameIds(e.items[1].subs, AssignIds(subs, 1), SubId(1, 1));
    assert SubTarget(e.items, 1, SubId(1, 1)) == Some(1);
    e.VerifySubItem(1, SubId(1, 1));
    assert GroupComplete(e.items[1].subs);
  }

  /** The session continued: a repeated click is a no-op, B finishes the pack. */
  method SecondHalf(e: Engine)
    requires e.Valid() && |e.items| == 3 && e.items[2].Simple?
    requires e.pending == 1 && e.verified == {0, 1} && e.scheduled == [0, 1]
    modifies e
  {
    e.VerifySubItem(1, SubId(1, 1));
    assert e.pending == 1 && e.verified == {0, 1};

    e.VerifyCheckbox(2);
    assert e.pending == 0 && e.verified == {0, 1, 2};
    assert e.scheduled == [0, 1, 2];

    e.VerifyCheckbox(2);
    assert e.pending == 0 && e.scheduled == [0, 1, 2];
  }

  /** A resumed session: `v=0,1` leaves only B to verify; A and the group are not rendered. */
  method ResumedSession()
  {
    var pack := SamplePack();
    assert Unverified(3, {0, 1}) == {2};
    var e := new Engine.Init(pack, {0, 1});
    assert e.pending == 1 && e.skipped == {0, 1};
    assert e.items[1] == pack[1];

    e.VerifyCheckbox(1);
    assert e.pending == 1;

    e.VerifyCheckbox(2);
    assert e.pending == 0 && e.scheduled == [2];
  }

  /** A link whose `v` already lists every item signals completion as soon as it loads. */
  method FinishedSession()
  {
    var pack := SamplePack();
    assert Unverified(3, {0, 1, 2, 7}) == {};
    var e := new Engine.Init(pack, {0, 1, 2, 7});
    assert e.pending == 0 && e.signals == 1;
  }

  /** A group without sub-items is completed by its checkbox and counts as one item. */
  method EmptyGroup()
  {
    var pack := [Group(Entry("G"), [])];
    assert Unverified(1, {}) == {0};
    var e := new Engine.Init(pack, {});
    assert e.pending == 1;
    e.VerifySubItem(0, "sub-0-0");
    assert e.pending == 1;
    e.VerifyCheckbox(0);
    assert e.pending == 0 && e.verified == {0};
  }
}
