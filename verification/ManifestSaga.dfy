/** The manifest's backup as a step of an installer's run: a run that fails behind it ends in the tree it began
    with, whatever the other steps do to the manifest. */
module ManifestSaga {
  import opened FileTree
  import opened FileSystem
  import opened PackageTrees
  import opened Manifest
  import A = AppInstaller

  type World = Node

  type Reply = A.Reply<World, ()>

  function Replied(t: World, status: Status): Reply {
    A.Reply(t, (), A.Returned(status), [])
  }

  // StepBackupManifest where no call fails: its methods answer so and make these trees.

  function Prechecked(t: World, xml: Path): Reply {
    Replied(t, if Exists(t, xml) then OK else MANIFEST_NOT_FOUND)
  }

  function Processed(t: World, xml: Path): Reply
    requires xml != []
  {
    Replied(CopiedTree(t, xml), if CanCopy(t, xml, BackupPath(xml), false) then OK else MANIFEST_ERROR)
  }

  function Undone(t: World, xml: Path): Reply
    requires xml != []
  {
    Replied(UndoneTree(t, xml), OK)
  }

  function Cleaned(t: World, xml: Path): Reply
    requires xml != []
  {
    Replied(Cut(t, BackupPath(xml)), OK)
  }

  function BackupManifest(xml: Path): A.Step<World, ()>
    requires xml != []
  {
    A.Step(
      (t: World, m: ()) => Prechecked(t, xml),
      (t: World, m: ()) => Processed(t, xml),
      (t: World, m: ()) => Undone(t, xml),
      (t: World, m: ()) => Cleaned(t, xml))
  }

  /** What entering and undoing the step make of a tree. */
  lemma Trees(t: Node, xml: Path)
    requires xml != []
    ensures A.Enter(BackupManifest(xml), t, ()).shared == CopiedTree(t, xml)
    ensures BackupManifest(xml).undo(t, ()).shared == UndoneTree(t, xml)
  {
    Answers(t, xml);
    hide Prechecked, Processed, Undone, Cleaned, CopiedTree, UndoneTree, Exists, CanCopy, Get;
    var s := BackupManifest(xml);
    assert s.precheck(t, ()) == Prechecked(t, xml);
    assert s.process(t, ()) == Processed(t, xml);
    assert s.undo(t, ()) == Undone(t, xml);
  }

  lemma Answers(t: Node, xml: Path)
    requires xml != []
    ensures Processed(t, xml).shared == CopiedTree(t, xml) && Undone(t, xml).shared == UndoneTree(t, xml)
    ensures Prechecked(t, xml).shared == t && Prechecked(t, xml).own == ()
    ensures A.StatusOf(Prechecked(t, xml).outcome) != OK ==> CopiedTree(t, xml) == t
  {
    hide Get, Put, Cut, UndoneTree, BackupPath;
  }

  /** w reverts to the manifest that v reverts to, and all else is the same. */
  function SameAfterRevert(xml: Path): (World, World) -> bool {
    (w: World, v: World) => Equivalent(v, w, xml)
  }

  lemma Undoes(t: Node, xml: Path)
    requires Ready(t, xml)
    ensures Equivalent(t, UndoneTree(t, xml), xml) && !Exists(UndoneTree(t, xml), BackupPath(xml))
  {
    hide Cut, Put, Get;
    var bck := BackupPath(xml);
    BackupPathIsApart(xml);
    Itself(t, xml);
    if Exists(t, bck) {
      Removal(t, Cut(t, xml), xml);
      var cleared := Cut(t, xml);
      assert CanRename(cleared, bck, xml);
      RenamedFrame(cleared, bck, xml);
      Move(t, cleared, Renamed(cleared, bck, xml), xml);
    }
  }

  /** Entering the step, however that ends, does not change what is reverted to. */
  lemma Enters(t: Node, xml: Path)
    requires xml != []
    ensures var e := CopiedTree(t, xml);
      SameOutside2(t, e, xml, BackupPath(xml)) && Reverted(e, xml) == Reverted(t, xml)
  {
    hide Cut, Put, Get;
    var bck := BackupPath(xml);
    BackupPathIsApart(xml);
    SameOutside2Refl(t, xml, bck);
    if CanCopy(t, xml, bck, false) {
      var n := Get(t, xml).value;
      GetPut(t, bck, n);
      CutPut(t, bck, n);
      Widen(t, Put(t, bck, n), xml, bck);
    }
  }

  /** The step undoes what it did, on any tree that reverts alike. */
  lemma BackupCompensates(xml: Path)
    requires xml != []
    ensures A.Compensates(BackupManifest(xml), SameAfterRevert(xml))
  {
    hide Equivalent, CopiedTree, UndoneTree, BackupManifest, A.Enter;
    var s, same := BackupManifest(xml), SameAfterRevert(xml);
    forall v: World, m: (), w: World | same(w, A.Enter(s, v, m).shared)
      ensures same(s.undo(w, A.Enter(s, v, m).own).shared, v)
    {
      assert m == () && A.Enter(s, v, m).own == ();
      Trees(v, xml);
      Trees(w, xml);
      UndoneAlike(v, w, xml);
    }
  }

  lemma UndoneAlike(v: Node, w: Node, xml: Path)
    requires xml != [] && Equivalent(CopiedTree(v, xml), w, xml)
    ensures Equivalent(v, UndoneTree(w, xml), xml) && !Exists(UndoneTree(w, xml), BackupPath(xml))
  {
    hide Cut, Put, Get, CopiedTree, UndoneTree, SameOutside2;
    Enters(v, xml);
    Undoes(w, xml);
    SameOutside2Trans(v, CopiedTree(v, xml), w, xml, BackupPath(xml));
    SameOutside2Trans(v, w, UndoneTree(w, xml), xml, BackupPath(xml));
  }

  /** A step that may write and remove the manifest but leaves its backup alone, forwards and backwards. */
  ghost predicate LeavesBackup(s: A.Step<World, ()>, xml: Path)
    requires xml != []
  {
    forall t: World :: LeavesBackupOf(s, t, xml)
  }

  ghost predicate LeavesBackupOf(s: A.Step<World, ()>, t: World, xml: Path)
    requires xml != []
  {
    (Ready(t, xml) && Exists(t, BackupPath(xml)) ==>
       Equivalent(t, A.Enter(s, t, ()).shared, xml) && Exists(A.Enter(s, t, ()).shared, BackupPath(xml))) &&
    (Ready(t, xml) ==> Equivalent(t, s.undo(t, ()).shared, xml))
  }

  /** The worlds of a run whose first step backed the manifest up. */
  lemma {:induction false} Worlds(steps: seq<A.Step<World, ()>>, t0: World, own: seq<()>, i: nat, xml: Path)
    requires 0 < i <= |steps| == |own| && xml != [] && steps[0] == BackupManifest(xml)
    requires forall j | 0 < j < |steps| :: LeavesBackup(steps[j], xml)
    requires Ready(t0, xml) && IsFile(t0, xml) && !Exists(t0, BackupPath(xml))
    ensures var t := A.Shared(steps, t0, own, i); Equivalent(t0, t, xml) && Exists(t, BackupPath(xml))
    decreases i
  {
    hide Cut, Put, Get, Equivalent, BackupManifest, A.Enter, Reverted, CopiedTree;
    if i == 1 {
      Trees(t0, xml);
      BacksUp(t0, xml);
      NextWorld(steps, t0, own, 0);
    } else {
      Worlds(steps, t0, own, i - 1, xml);
      var t := A.Shared(steps, t0, own, i - 1);
      IsReady(t0, t, xml);
      NextWorld(steps, t0, own, i - 1);
      assert LeavesBackupOf(steps[i - 1], t, xml);
      Chain(t0, t, A.Enter(steps[i - 1], t, ()).shared, xml);
    }
  }

  lemma IsReady(a: Node, b: Node, xml: Path)
    requires Equivalent(a, b, xml)
    ensures Ready(b, xml)
  {
  }

  lemma BacksUp(t: Node, xml: Path)
    requires Ready(t, xml) && IsFile(t, xml) && !Exists(t, BackupPath(xml))
    ensures var e := CopiedTree(t, xml); Equivalent(t, e, xml) && Exists(e, BackupPath(xml))
  {
    hide Cut, Put, Get;
    var bck := BackupPath(xml);
    BackupPathIsApart(xml);
    var e := Put(t, bck, Get(t, xml).value);
    GetPut(t, bck, Get(t, xml).value);
    CutPut(t, bck, Get(t, xml).value);
    SameOutsideGet(t, e, bck, xml);
    Widen(t, e, xml, bck);
    EntryIsReady(t, e, xml);
  }

  /** A run that fails at any step k, the first of which backs the manifest up, gives back exactly the tree it
      began with. */
  lemma FailedRunKeepsManifest(steps: seq<A.Step<World, ()>>, t0: World, own: seq<()>, k: nat, xml: Path)
    requires k < |steps| == |own| && xml != [] && steps[0] == BackupManifest(xml)
    requires forall j | 0 < j < |steps| :: LeavesBackup(steps[j], xml)
    requires Ready(t0, xml) && IsFile(t0, xml) && !Exists(t0, BackupPath(xml))
    ensures A.UndoFrom(steps, t0, own, A.Shared(steps, t0, own, k + 1), k) == t0
  {
    hide Cut, Put, Get, Equivalent, Reverted, LeavesBackup, BackupManifest, A.Enter, A.Shared, A.Entry, CopiedTree;
    hide UndoneTree;
    // besides reverting alike, the first world is known by having no backup
    var same := (w: World, v: World) => Equivalent(v, w, xml) && (v == t0 ==> !Exists(w, BackupPath(xml)));
    forall i | 0 <= i <= k ensures A.CompensatesAt(steps, t0, own, i, same) {
      var before, after := A.Shared(steps, t0, own, i), A.Shared(steps, t0, own, i + 1);
      NextWorld(steps, t0, own, i);
      Worlds(steps, t0, own, i + 1, xml);
      if i > 0 {
        Worlds(steps, t0, own, i, xml);
        IsReady(t0, before, xml);
      }
      forall w | same(w, after) ensures same(steps[i].undo(w, A.Entry(steps, t0, own, i).own).shared, before) {
        assert A.Entry(steps, t0, own, i).own == ();
        if i == 0 {
          Trees(t0, xml);
          Trees(w, xml);
          UndoneAlike(t0, w, xml);
        } else {
          UndoneLater(steps[i], before, after, w, xml);
        }
      }
    }
    Worlds(steps, t0, own, k + 1, xml);
    var last := A.Shared(steps, t0, own, k + 1);
    IsReady(t0, last, xml);
    Itself(last, xml);
    A.FailedRunRestores(steps, t0, own, k, same);
    Returned(t0, A.UndoFrom(steps, t0, own, last, k), xml);
  }

  lemma NextWorld(steps: seq<A.Step<World, ()>>, t0: World, own: seq<()>, i: nat)
    requires i < |steps| == |own|
    ensures A.Shared(steps, t0, own, i + 1) == A.Enter(steps[i], A.Shared(steps, t0, own, i), ()).shared
    ensures A.Shared(steps, t0, own, 0) == t0
  {
    hide A.Enter;
    assert own[i] == ();
  }

  lemma UndoneLater(s: A.Step<World, ()>, before: Node, after: Node, w: Node, xml: Path)
    requires xml != [] && LeavesBackup(s, xml) && after == A.Enter(s, before, ()).shared
    requires Ready(before, xml) && Exists(before, BackupPath(xml)) && Equivalent(after, w, xml)
    ensures Equivalent(before, s.undo(w, ()).shared, xml)
  {
    hide Cut, Put, Get, Equivalent, Reverted, A.Enter;
    IsReady(after, w, xml);
    assert LeavesBackupOf(s, before, xml) && LeavesBackupOf(s, w, xml);
    Chain(before, after, w, xml);
    Chain(before, w, s.undo(w, ()).shared, xml);
  }

  lemma Returned(t0: Node, t: Node, xml: Path)
    requires Ready(t0, xml) && Equivalent(t0, t, xml) && Get(t0, BackupPath(xml)) == None
    requires Get(t, BackupPath(xml)) == None
    ensures t == t0
  {
    BackAgainIff(t0, t, xml);
  }
}
