/** Many sessions on one disk: each is a mount, a run and an unmount. Where every
    session comes back whole, and so always where a long has four bytes, the files
    are those of the operations of all sessions, one after the other. */
module Lifetimes {
  import opened Blocks
  import opened BlockLayer
  import opened StoreModel
  import opened Ownership
  import opened FileMap
  import opened Encoding
  import opened Restart
  import opened Sessions

  /** What one session does, and the build that mounts the disk after it. */
  datatype Sitting = Sitting(ops: seq<Op>, cached: bool)

  /** The store after a run, an unmount and the next mount. */
  ghost function Remounted(s: Store, sit: Sitting, adjust: nat, w: Width): Store
    requires WellFormed(s) && LegalRun(s, sit.ops, adjust) && Storables(Run(s, sit.ops, adjust).0.objs, w)
  {
    Mounted(Unmounted(Run(s, sit.ops, adjust).0, w), sit.cached, w)
  }

  /** Each session's run is legal on the store it finds. That each store can be run
      and unmounted follows where sessions come back whole. */
  ghost predicate LegalLife(s: Store, sits: seq<Sitting>, adjust: nat, w: Width)
    decreases |sits|
  {
    |sits| == 0 || (
      && WellFormed(s) && LegalRun(s, sits[0].ops, adjust) && Storables(Run(s, sits[0].ops, adjust).0.objs, w)
      && LegalLife(Remounted(s, sits[0], adjust, w), sits[1..], adjust, w))
  }

  /** The last store, and the answers of all the sessions. */
  ghost function Life(s: Store, sits: seq<Sitting>, adjust: nat, w: Width): (r: (Store, seq<Answer>))
    requires LegalLife(s, sits, adjust, w)
    decreases |sits|
  {
    if |sits| == 0 then (s, [])
    else
      var (t, rest) := Life(Remounted(s, sits[0], adjust, w), sits[1..], adjust, w);
      (t, Run(s, sits[0].ops, adjust).1 + rest)
  }

  /** Each session saves the entries its run touches. */
  ghost predicate LifeSaved(s: Store, sits: seq<Sitting>, adjust: nat, w: Width)
    requires LegalLife(s, sits, adjust, w)
    decreases |sits|
  {
    |sits| == 0 || (
      && AllSaved(s, TouchedIn(s, sits[0].ops, adjust), Run(s, sits[0].ops, adjust).0.objs, w)
      && LifeSaved(Remounted(s, sits[0], adjust, w), sits[1..], adjust, w))
  }

  /** The operations of all the sessions in order. */
  function AllOps(sits: seq<Sitting>): seq<Op> {
    if |sits| == 0 then [] else sits[0].ops + AllOps(sits[1..])
  }

  /** What the specification allows in two parts it allows in one. */
  lemma {:induction false} SpecRunsJoin(f: Files, a: seq<Op>, g: Files, x: seq<Answer>, b: seq<Op>, h: Files,
                                        y: seq<Answer>)
    requires SpecRun(f, a, g, x) && SpecRun(g, b, h, y)
    ensures SpecRun(f, a + b, h, x + y)
    decreases |a|
  {
    hide Spec;
    if |a| == 0 {
      assert a + b == b && x + y == y;
    } else {
      var f1 :| Spec(f, a[0], f1, x[0]) && SpecRun(f1, a[1..], g, x[1..]);
      SpecRunsJoin(f1, a[1..], g, x[1..], b, h, y);
      assert (a + b)[0] == a[0] && (a + b)[1..] == a[1..] + b;
      assert (x + y)[0] == x[0] && (x + y)[1..] == x[1..] + y;
    }
  }

  lemma SessionFormed(s: Store, w: Width)
    requires Session(s, w)
    ensures Inv(s) && WellFormed(s)
  {
  }

  lemma SavedRemounts(s: Store, sit: Sitting, adjust: nat, w: Width)
    requires Session(s, w) && LegalRun(s, sit.ops, adjust)
    requires Storables(Run(s, sit.ops, adjust).0.objs, w)
    requires AllSaved(s, TouchedIn(s, sit.ops, adjust), Run(s, sit.ops, adjust).0.objs, w)
    ensures Session(Remounted(s, sit, adjust, w), w) && WellFormed(Remounted(s, sit, adjust, w))
    ensures SpecRun(FilesOf(s), sit.ops, FilesOf(Remounted(s, sit, adjust, w)), Run(s, sit.ops, adjust).1)
  {
    hide Session, Inv, WellFormed, LegalRun, Run, TouchedIn, Storables, Unmounted, Mounted, AllSaved, FilesOf, SpecRun;
    SessionFormed(s, w);
    SessionRestoresIff(s, sit.ops, adjust, sit.cached, w);
    RunMeets(s, sit.ops, adjust);
    SessionFormed(Remounted(s, sit, adjust, w), w);
  }

  /** If each session of a life saves what it touches, the files at the end and all
      the answers are those that the specification gives for the operations of all
      sessions in one run, and the last mount is as sound as the first. */
  lemma {:induction false} LifeMeets(s: Store, sits: seq<Sitting>, adjust: nat, w: Width)
    requires Session(s, w) && LegalLife(s, sits, adjust, w) && LifeSaved(s, sits, adjust, w)
    ensures var (t, answers) := Life(s, sits, adjust, w);
      Session(t, w) && SpecRun(FilesOf(s), AllOps(sits), FilesOf(t), answers)
    decreases |sits|
  {
    hide Session, Inv, WellFormed, LegalRun, Run, TouchedIn, Storables, Remounted, AllSaved, FilesOf,
      Spec;
    SessionFormed(s, w);
    if |sits| != 0 {
      var s1 := Remounted(s, sits[0], adjust, w);
      SavedRemounts(s, sits[0], adjust, w);
      LifeMeets(s1, sits[1..], adjust, w);
      var (t, rest) := Life(s1, sits[1..], adjust, w);
      SessionFormed(t, w);
      SpecRunsJoin(FilesOf(s), sits[0].ops, FilesOf(s1), Run(s, sits[0].ops, adjust).1,
                   AllOps(sits[1..]), FilesOf(t), rest);
    }
  }

  lemma NarrowSaves(s: Store, ops: seq<Op>, adjust: nat)
    requires Session(s, 4) && LegalRun(s, ops, adjust)
    ensures AllSaved(s, TouchedIn(s, ops, adjust), Run(s, ops, adjust).0.objs, 4)
  {
    hide Session, WellFormed, LegalRun, Run, TouchedIn, Storables, Unmounted, Mounted, Restored, AllSaved;
    SessionRestoresIff(s, ops, adjust, false, 4);
    NarrowRunsRestore(s, ops, adjust, false);
  }

  lemma {:induction false} NarrowLifeSaved(s: Store, sits: seq<Sitting>, adjust: nat)
    requires Session(s, 4) && LegalLife(s, sits, adjust, 4)
    ensures LifeSaved(s, sits, adjust, 4)
    decreases |sits|
  {
    hide Session, WellFormed, LegalRun, Run, TouchedIn, Storables, Remounted, AllSaved, FilesOf,
      SpecRun;
    if |sits| != 0 {
      NarrowSaves(s, sits[0].ops, adjust);
      SavedRemounts(s, sits[0], adjust, 4);
      NarrowLifeSaved(Remounted(s, sits[0], adjust, 4), sits[1..], adjust);
    }
  }

  /** With four-byte longs, after any number of sessions the files and the answers
      are those of all the operations in one run. */
  lemma NarrowLifeMeets(s: Store, sits: seq<Sitting>, adjust: nat)
    requires Session(s, 4) && LegalLife(s, sits, adjust, 4)
    ensures var (t, answers) := Life(s, sits, adjust, 4);
      Session(t, 4) && SpecRun(FilesOf(s), AllOps(sits), FilesOf(t), answers)
  {
    hide Session, LegalLife, Life, LifeSaved, FilesOf, SpecRun;
    NarrowLifeSaved(s, sits, adjust);
    LifeMeets(s, sits, adjust, 4);
  }

  /** From a disk of zeros: the files are all those the operations made. */
  lemma NarrowLifeFromZeros(disk: seq<Block>, cached: bool, sits: seq<Sitting>, adjust: nat)
    requires ZeroDisk(disk) && LegalLife(Mounted(disk, cached, 4), sits, adjust, 4)
    ensures var (t, answers) := Life(Mounted(disk, cached, 4), sits, adjust, 4);
      WellFormed(t) && SpecRun(map[], AllOps(sits), FilesOf(t), answers)
  {
    assert |disk| == DISK_BLOCKS;
    hide ZeroDisk, LegalLife, Life, Mounted, FilesOf, SpecRun;
    BlankDiskMounts(disk, cached, 4);
    NarrowLifeMeets(Mounted(disk, cached, 4), sits, adjust);
  }
}
