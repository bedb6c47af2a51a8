/** The two builds across mount and unmount: mounted from one disk they agree, and
    after a session of each their disks mount to stores that agree again. */
module LockstepSessions {
  import opened Blocks
  import opened BlockLayer
  import opened StoreModel
  import opened Ownership
  import opened Reading
  import opened FileMap
  import opened Encoding
  import opened Restart
  import opened Lockstep
  import opened Sessions

  lemma MountsAgree(disk: seq<Block>, c: bool, d: bool, w: Width)
    requires |disk| == DISK_BLOCKS
    ensures Agree(Mounted(disk, c, w), Mounted(disk, d, w))
    ensures SameMeta(Mounted(disk, c, w).layer, Mounted(disk, d, w).layer)
  {
    hide MountEntry, MountBits;
  }

  /** Disks alike in their metadata blocks mount to the same bitmaps and table. */
  lemma SameMetaMounts(x: seq<Block>, y: seq<Block>, c: bool, d: bool, w: Width)
    requires |x| == |y| == DISK_BLOCKS && forall i :: 0 <= i < WRITE_OFFSET ==> x[i] == y[i]
    ensures var (s, t) := (Mounted(x, c, w), Mounted(y, d, w));
      s.inode == t.inode && s.data == t.data && s.objs == t.objs && s.marked == t.marked
  {
    hide EntryFrom, BlockBit;
    forall o: nat | o < MAX_OBJECTS ensures MountEntry(x, o, w) == MountEntry(y, o, w) {
      assert MountBytes(x, o, w) == MountBytes(y, o, w);
    }
    assert MountBits(x, OBJECT_BLOCKS, MAX_OBJECTS) == MountBits(y, OBJECT_BLOCKS, MAX_OBJECTS);
    assert MountBits(x, OBJECT_BLOCKS + INODE_BIT_BLOCKS, DATA_BLOCKS)
        == MountBits(y, OBJECT_BLOCKS + INODE_BIT_BLOCKS, DATA_BLOCKS);
  }

  /** Stores that agree, on disks alike in their metadata, unmount to such disks. */
  lemma UnmountsAlike(s: Store, t: Store, w: Width)
    requires WellFormed(s) && WellFormed(t) && Agree(s, t) && SameMeta(s.layer, t.layer) && Storables(s.objs, w)
    ensures forall i :: 0 <= i < WRITE_OFFSET ==> Unmounted(s, w)[i] == Unmounted(t, w)[i]
  {
    hide Coherent, View, ChunkBlock, BitBlock, Storable;
  }

  lemma RestartsAgree(s: Store, t: Store, c: bool, d: bool, w: Width)
    requires WellFormed(s) && WellFormed(t) && Agree(s, t) && SameMeta(s.layer, t.layer) && Storables(s.objs, w)
    ensures Agree(Mounted(Unmounted(s, w), c, w), Mounted(Unmounted(t, w), d, w))
  {
    UnmountsAlike(s, t, w);
    SameMetaMounts(Unmounted(s, w), Unmounted(t, w), c, d, w);
    MountedLayer(s, c, w);
    MountedLayer(t, d, w);
    MountedBits(s, c, w);
    hide Unmounted, Mounted, View, Coherent, Storables;
  }

  lemma AgreeFiles(s: Store, t: Store)
    requires Inv(s) && WellFormed(t) && Agree(s, t)
    ensures FilesOf(t) == FilesOf(s)
  {
    AgreePointers(s, t);
    hide Coherent, Owned, Grouped, Numbered, View, Ptr, PagesOf, SeeAlike, PageBlock;
    forall o: int ensures PagesOf(t, o) == PagesOf(s, o) {
      forall p ensures PageBlock(t, o, p) == PageBlock(s, o, p) {
        AgreePages(s, t, o, p);
      }
      SamePages(s, t, o);
    }
  }

  lemma MetaBack(x: Layer, y: Layer)
    requires SameMeta(x, y)
    ensures SameMeta(y, x)
  {
  }

  /** From agreeing stores on one disk, a run in each build, an unmount of each and a
      mount of each give agreeing stores; where the one comes back whole, so does the
      other, with the same files. */
  lemma SessionsAgree(s: Store, t: Store, ops: seq<Op>, adjust: nat, c: bool, d: bool, w: Width)
    requires Session(s, w) && WellFormed(t) && Agree(s, t) && SameMeta(s.layer, t.layer) && LegalRun(s, ops, adjust)
    ensures LegalRun(t, ops, adjust)
    ensures var (s', t') := (Run(s, ops, adjust).0, Run(t, ops, adjust).0);
      && Storables(s'.objs, w) && Storables(t'.objs, w)
      && var (u, v) := (Mounted(Unmounted(s', w), c, w), Mounted(Unmounted(t', w), d, w));
         && Agree(u, v)
         && (Restored(s', u, w) <==> Restored(t', v, w))
         && (Restored(s', u, w) ==> FilesOf(u) == FilesOf(v))
  {
    SessionFit(s, w);
    FitWellFormed(s);
    AgreeFit(s, t);
    hide Session, Fit, LegalRun, Run, Reached, Storables, WellFormed, Inv, Agree, Mounted, Unmounted, Restored,
      FilesOf, SameMeta;
    assert Inv(s) by { FitInv(s); }
    RunAlike(s, t, ops, adjust);
    RunReaches(s, ops, adjust);
    RunReaches(t, ops, adjust);
    var (s', t') := (Run(s, ops, adjust).0, Run(t, ops, adjust).0);
    RunsMeta(s, s', TouchedIn(s, ops, adjust), t, t', TouchedIn(t, ops, adjust));
    FitStorables(s', w);
    FitStorables(t', w);
    FitInv(s');
    FitInv(t');
    RestartsAgree(s', t', c, d, w);
    AgreeFiles(s', t');
    RestoredAlike(s', t', c, d, w);
  }

  lemma AgreeFit(s: Store, t: Store)
    requires Fit(s) && WellFormed(t) && Agree(s, t)
    ensures Fit(t)
  {
    AgreeFiles(s, t);
    AgreePointers(s, t);
    hide Inv, Agree, WellFormed, FilesOf, SizesFit;
  }

  lemma FitInv(s: Store)
    requires Fit(s)
    ensures Inv(s) && WellFormed(s)
  {
  }

  lemma RunsMeta(s: Store, s': Store, a: set<int>, t: Store, t': Store, b: set<int>)
    requires Reached(s, s', a) && Reached(t, t', b) && SameMeta(s.layer, t.layer)
    ensures SameMeta(s'.layer, t'.layer)
  {
    MetaBack(s.layer, s'.layer);
    MetaChain(s'.layer, s.layer, t.layer);
    MetaChain(s'.layer, t.layer, t'.layer);
    hide SameMeta;
  }

  lemma RestoredAlike(s: Store, t: Store, c: bool, d: bool, w: Width)
    requires Fit(s) && Fit(t) && Storables(s.objs, w) && Storables(t.objs, w)
    requires Agree(s, t) && SameMeta(s.layer, t.layer) && FilesOf(t) == FilesOf(s)
    ensures var (u, v) := (Mounted(Unmounted(s, w), c, w), Mounted(Unmounted(t, w), d, w));
      && (Restored(s, u, w) <==> Restored(t, v, w)) && (Restored(s, u, w) ==> FilesOf(u) == FilesOf(v))
  {
    FitInv(s);
    FitInv(t);
    RestartRestoresIff(s, c, w);
    RestartRestoresIff(t, d, w);
    SyncedAlike(s, t, w);
    hide Unmounted, Mounted, Inv, WellFormed, Storables, Synced, FilesOf, SizesFit, SeeAlike;
  }

  lemma SyncedAlike(s: Store, t: Store, w: Width)
    requires WellFormed(s) && WellFormed(t) && Storables(s.objs, w) && Agree(s, t) && SameMeta(s.layer, t.layer)
    ensures Synced(s, w) <==> Synced(t, w)
  {
    hide Coherent, Storable, EntryBytes, Matters, At, View, DiskByte;
    forall o: nat | o < MAX_OBJECTS ensures EntrySynced(s, o, w) <==> EntrySynced(t, o, w) {
      forall j: nat | j < EntrySize(w)
        ensures DiskByte(t.layer.disk, At(w, o, j)) == DiskByte(s.layer.disk, At(w, o, j))
      {
        SameDiskByte(s.layer, t.layer, At(w, o, j));
      }
    }
  }
}
