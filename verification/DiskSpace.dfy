/** The disk-space check (diskspace.c): what it charges to each mount point and what passing
    it guarantees for every moment of a commit. */
module DiskSpace {
  import opened Text

  /** What is fixed about a mount point; whether its file system can be queried is found out
      when first needed. */
  datatype Info = Info(dir: string, readOnly: bool, loadable: bool, bsize: nat, blocks: nat, bavail: nat)

  datatype FsInfo = Unloaded | Loaded | Failed

  datatype File = File(name: string, size: nat, plain: bool)   // plain: neither directory nor symlink

  datatype Target = Target(files: seq<File>, installed: Option<seq<File>>)

  /** Where files end up, and what is on disk there. */
  datatype System = System(root: string, dbpath: string, stat: string -> Option<File>)

  // ----- matching a path to a mount point

  /** The mount directory is the path, or a parent directory of it. */
  predicate Under(dir: string, path: string) {
    && dir != "" && dir <= path
    && (dir[|dir| - 1] == '/' || |path| == |dir| || path[|dir|] == '/')
  }

  /** The first mount point the path is under, or the number of mount points. */
  function Match(infos: seq<Info>, path: string): (i: nat)
    ensures i <= |infos| && (i < |infos| ==> Under(infos[i].dir, path))
    ensures forall k :: 0 <= k < i ==> !Under(infos[k].dir, path)
  {
    if infos == [] then 0 else if Under(infos[0].dir, path) then 0 else 1 + Match(infos[1..], path)
  }

  /** mount_point_cmp puts every mount point before its parents. */
  ghost predicate Ordered(infos: seq<Info>) {
    forall i, j :: 0 <= i < j < |infos| ==> StrCmp(infos[i].dir, infos[j].dir) >= 0
  }

  lemma {:induction false} LongerIsGreater(a: string, b: string, path: string)
    requires a <= path && b <= path && StrCmp(a, b) >= 0
    ensures |a| >= |b|
    decreases |a|
  {
    if a != "" && b != "" {
      assert a[1..] <= path[1..] && b[1..] <= path[1..];
      LongerIsGreater(a[1..], b[1..], path[1..]);
    }
  }

  /** The match is the longest mount directory the path is under. */
  lemma MatchIsLongest(infos: seq<Info>, path: string, k: nat)
    requires Ordered(infos) && k < |infos| && Under(infos[k].dir, path)
    ensures Match(infos, path) < |infos| && |infos[Match(infos, path)].dir| >= |infos[k].dir|
  {
    var i := Match(infos, path);
    if i != k {
      LongerIsGreater(infos[i].dir, infos[k].dir, path);
    }
  }

  // ----- charging

  function Blocks(info: Info, size: nat): nat
    requires info.bsize > 0
  {
    (size + info.bsize - 1) / info.bsize
  }

  /** The blocks are enough for the size, and one less would not be. */
  lemma BlocksSuffice(info: Info, size: nat)
    requires info.bsize > 0
    ensures Blocks(info, size) * info.bsize >= size
    ensures size > 0 ==> (Blocks(info, size) - 1) * info.bsize < size
  {
    var b, n := info.bsize, size + info.bsize - 1;
    assert n == n / b * b + n % b;
    assert (Blocks(info, size) - 1) * b == n / b * b - b;
  }

  predicate Hits(infos: seq<Info>, m: nat, path: string)
    requires m < |infos|
  {
    Match(infos, path) == m && infos[m].loadable
  }

  function Charge(infos: seq<Info>, m: nat, path: string, size: nat): nat
    requires m < |infos|
  {
    if Hits(infos, m, path) && infos[m].bsize > 0 then Blocks(infos[m], size) else 0
  }

  /** What taking a file away gives back: what is on disk, if it is a plain file. */
  function Freed(infos: seq<Info>, sys: System, m: nat, files: seq<File>): nat
    requires m < |infos|
  {
    if files == [] then 0
    else
      var n := |files| - 1;
      var path := sys.root + files[n].name;
      var st := sys.stat(path);
      Freed(infos, sys, m, files[..n]) + if st.Some? && st.value.plain then Charge(infos, m, path, st.value.size) else 0
  }

  /** Database entries of a package go to the database path. */
  function PathOf(sys: System, f: File): string {
    sys.root + if f.name != "" && f.name[0] == '.' then sys.dbpath else f.name
  }

  function Taken(infos: seq<Info>, sys: System, m: nat, files: seq<File>): nat
    requires m < |infos|
  {
    if files == [] then 0
    else
      var n := |files| - 1;
      Taken(infos, sys, m, files[..n])
      + if files[n].plain then Charge(infos, m, PathOf(sys, files[n]), files[n].size) else 0
  }

  ghost predicate FreesOn(infos: seq<Info>, sys: System, m: nat, files: seq<File>)
    requires m < |infos|
  {
    exists i :: 0 <= i < |files| && FreesFile(infos, sys, m, files[i])
  }

  predicate FreesFile(infos: seq<Info>, sys: System, m: nat, f: File)
    requires m < |infos|
  {
    var st := sys.stat(sys.root + f.name);
    st.Some? && st.value.plain && Hits(infos, m, sys.root + f.name)
  }

  ghost predicate TakesOn(infos: seq<Info>, sys: System, m: nat, files: seq<File>)
    requires m < |infos|
  {
    exists i :: 0 <= i < |files| && TakesFile(infos, sys, m, files[i])
  }

  predicate TakesFile(infos: seq<Info>, sys: System, m: nat, f: File)
    requires m < |infos|
  {
    f.plain && Hits(infos, m, PathOf(sys, f))
  }

  // ----- the accounts

  class Mount {
    const info: Info
    var blocksNeeded: int
    var maxBlocksNeeded: int
    var usedRemove: bool
    var usedInstall: bool
    var fsinfo: FsInfo

    constructor (info: Info)
      ensures this.info == info && Consistent()
      ensures blocksNeeded == maxBlocksNeeded == 0 && !usedRemove && !usedInstall
    {
      this.info, fsinfo := info, Unloaded;
      blocksNeeded, maxBlocksNeeded, usedRemove, usedInstall := 0, 0, false, false;
    }

    ghost predicate Consistent()
      reads this
    {
      (fsinfo == Loaded ==> info.loadable) && (fsinfo == Failed ==> !info.loadable)
    }

    method LoadFsInfo() returns (ok: bool)
      requires Consistent()
      modifies this`fsinfo
      ensures Consistent() && ok == info.loadable
    {
      if fsinfo == Unloaded {
        fsinfo := if info.loadable then Loaded else Failed;
      }
      ok := fsinfo == Loaded;
    }
  }

  function InfosOf(mounts: seq<Mount>): (r: seq<Info>)
    ensures |r| == |mounts| && forall i :: 0 <= i < |r| ==> r[i] == mounts[i].info
  {
    if mounts == [] then [] else [mounts[0].info] + InfosOf(mounts[1..])
  }

  ghost predicate Valid(mounts: seq<Mount>)
    reads mounts
  {
    && (forall i :: 0 <= i < |mounts| ==> mounts[i].Consistent() && mounts[i].info.bsize > 0 && mounts[i].info.dir != "")
    && (forall i, j :: 0 <= i < j < |mounts| ==> mounts[i] != mounts[j])
  }

  /** match_mount_point */
  method MatchMountPoint(mounts: seq<Mount>, path: string) returns (i: nat)
    requires forall k :: 0 <= k < |mounts| ==> mounts[k].info.dir != ""
    ensures i == Match(InfosOf(mounts), path)
  {
    hide Match, InfosOf;
    for k := 0 to |mounts|
      invariant forall l :: 0 <= l < k ==> !Under(mounts[l].info.dir, path)
    {
      var dir := mounts[k].info.dir;
      if dir <= path {
        if dir[|dir| - 1] == '/' {
          return k;
        } else if |path| == |dir| || path[|dir|] == '/' {
          return k;
        }
      }
    }
    i := |mounts|;
  }

  /** The part both size calculations share: one file charged to its mount point. */
  method ChargeFile(mounts: seq<Mount>, path: string, size: nat, install: bool)
    requires Valid(mounts)
    modifies mounts
    ensures Valid(mounts)
    ensures forall m :: 0 <= m < |mounts| ==> Charged(mounts[m], old(mounts[m].blocksNeeded), old(mounts[m].maxBlocksNeeded),
              old(mounts[m].usedRemove), old(mounts[m].usedInstall),
              Charge(InfosOf(mounts), m, path, size), Hits(InfosOf(mounts), m, path), install)
  {
    hide Match, InfosOf, Under, Blocks;
    var i := MatchMountPoint(mounts, path);
    if i == |mounts| {
      return;
    }
    var mp := mounts[i];
    if mp.fsinfo == Failed {
      return;
    }
    if mp.fsinfo == Unloaded {
      var ok := mp.LoadFsInfo();
      if !ok {
        return;
      }
    }
    var n := Blocks(mp.info, size);
    if install {
      mp.blocksNeeded := mp.blocksNeeded + n;
      mp.usedInstall := true;
    } else {
      mp.blocksNeeded := mp.blocksNeeded - n;
      mp.usedRemove := true;
    }
  }

  ghost predicate Charged(mp: Mount, blocks: int, max: int, usedRemove: bool, usedInstall: bool, n: nat, hit: bool, install: bool)
    reads mp
  {
    && mp.blocksNeeded == (if install then blocks + n else blocks - n) && mp.maxBlocksNeeded == max
    && mp.usedRemove == (usedRemove || (hit && !install)) && mp.usedInstall == (usedInstall || (hit && install))
  }

  /** calculate_removed_size */
  method CalculateRemovedSize(mounts: seq<Mount>, sys: System, files: seq<File>)
    requires Valid(mounts)
    modifies mounts
    ensures Valid(mounts)
    ensures forall m :: 0 <= m < |mounts| ==> Charged(mounts[m], old(mounts[m].blocksNeeded), old(mounts[m].maxBlocksNeeded),
              old(mounts[m].usedRemove), old(mounts[m].usedInstall),
              Freed(InfosOf(mounts), sys, m, files), FreesOn(InfosOf(mounts), sys, m, files), false)
  {
    hide Match, InfosOf, Charge, Hits, Valid;
    ghost var infos := InfosOf(mounts);
    for i := 0 to |files|
      invariant Valid(mounts)
      invariant forall m :: 0 <= m < |mounts| ==> Charged(mounts[m], old(mounts[m].blocksNeeded), old(mounts[m].maxBlocksNeeded),
                  old(mounts[m].usedRemove), old(mounts[m].usedInstall),
                  Freed(infos, sys, m, files[..i]), FreesOn(infos, sys, m, files[..i]), false)
    {
      forall m | 0 <= m < |mounts|
        ensures FreesOn(infos, sys, m, files[..i + 1]) <==> FreesOn(infos, sys, m, files[..i]) || FreesFile(infos, sys, m, files[i])
      {
        FreesOneMore(infos, sys, m, files, i);
      }
      assert files[..i + 1][..i] == files[..i];
      var path := sys.root + files[i].name;
      var st := sys.stat(path);
      if st.None? || !st.value.plain {
        continue;
      }
      ChargeFile(mounts, path, st.value.size, false);
    }
    assert files[..|files|] == files;
  }

  lemma FreesOneMore(infos: seq<Info>, sys: System, m: nat, files: seq<File>, i: nat)
    requires m < |infos| && i < |files|
    ensures FreesOn(infos, sys, m, files[..i + 1]) <==> FreesOn(infos, sys, m, files[..i]) || FreesFile(infos, sys, m, files[i])
  {
    hide FreesFile;
    if FreesOn(infos, sys, m, files[..i]) {
      var k :| 0 <= k < i && FreesFile(infos, sys, m, files[..i][k]);
      assert files[..i + 1][k] == files[k];
    }
    assert files[..i + 1][i] == files[i];
    if FreesOn(infos, sys, m, files[..i + 1]) && !FreesFile(infos, sys, m, files[i]) {
      var k :| 0 <= k < i + 1 && FreesFile(infos, sys, m, files[..i + 1][k]);
      assert files[..i][k] == files[k];
    }
  }

  /** calculate_installed_size */
  method CalculateInstalledSize(mounts: seq<Mount>, sys: System, files: seq<File>)
    requires Valid(mounts)
    modifies mounts
    ensures Valid(mounts)
    ensures forall m :: 0 <= m < |mounts| ==> Charged(mounts[m], old(mounts[m].blocksNeeded), old(mounts[m].maxBlocksNeeded),
              old(mounts[m].usedRemove), old(mounts[m].usedInstall),
              Taken(InfosOf(mounts), sys, m, files), TakesOn(InfosOf(mounts), sys, m, files), true)
  {
    hide Match, InfosOf, Charge, Hits, Valid, PathOf;
    ghost var infos := InfosOf(mounts);
    for i := 0 to |files|
      invariant Valid(mounts)
      invariant forall m :: 0 <= m < |mounts| ==> Charged(mounts[m], old(mounts[m].blocksNeeded), old(mounts[m].maxBlocksNeeded),
                  old(mounts[m].usedRemove), old(mounts[m].usedInstall),
                  Taken(infos, sys, m, files[..i]), TakesOn(infos, sys, m, files[..i]), true)
    {
      forall m | 0 <= m < |mounts|
        ensures TakesOn(infos, sys, m, files[..i + 1]) <==> TakesOn(infos, sys, m, files[..i]) || TakesFile(infos, sys, m, files[i])
      {
        TakesOneMore(infos, sys, m, files, i);
      }
      assert files[..i + 1][..i] == files[..i];
      if !files[i].plain {
        continue;
      }
      ChargeFile(mounts, PathOf(sys, files[i]), files[i].size, true);
    }
    assert files[..|files|] == files;
  }

  lemma TakesOneMore(infos: seq<Info>, sys: System, m: nat, files: seq<File>, i: nat)
    requires m < |infos| && i < |files|
    ensures TakesOn(infos, sys, m, files[..i + 1]) <==> TakesOn(infos, sys, m, files[..i]) || TakesFile(infos, sys, m, files[i])
  {
    hide TakesFile;
    if TakesOn(infos, sys, m, files[..i]) {
      var k :| 0 <= k < i && TakesFile(infos, sys, m, files[..i][k]);
      assert files[..i + 1][k] == files[k];
    }
    assert files[..i + 1][i] == files[i];
    if TakesOn(infos, sys, m, files[..i + 1]) && !TakesFile(infos, sys, m, files[i]) {
      var k :| 0 <= k < i + 1 && TakesFile(infos, sys, m, files[..i + 1][k]);
      assert files[..i][k] == files[k];
    }
  }

  // ----- the whole check

  /** What is to be done: the files of each package to remove, then the targets. */
  datatype Work = Work(infos: seq<Info>, sys: System, removes: seq<seq<File>>, adds: seq<Target>)

  function FreedBy(w: Work, m: nat, n: nat): nat
    requires m < |w.infos| && n <= |w.removes|
  {
    if n == 0 then 0 else FreedBy(w, m, n - 1) + Freed(w.infos, w.sys, m, w.removes[n - 1])
  }

  function FreedFirst(w: Work, m: nat, t: Target): nat
    requires m < |w.infos|
  {
    if t.installed.Some? then Freed(w.infos, w.sys, m, t.installed.value) else 0
  }

  /** The net blocks charged after all removals and the first n targets. */
  function Net(w: Work, m: nat, n: nat): int
    requires m < |w.infos| && n <= |w.adds|
  {
    if n == 0 then 0 - FreedBy(w, m, |w.removes|)
    else Net(w, m, n - 1) - FreedFirst(w, m, w.adds[n - 1]) + Taken(w.infos, w.sys, m, w.adds[n - 1].files)
  }

  ghost predicate RemovedFrom(w: Work, m: nat, n: nat)
    requires m < |w.infos| && n <= |w.removes|
  {
    n > 0 && (RemovedFrom(w, m, n - 1) || FreesOn(w.infos, w.sys, m, w.removes[n - 1]))
  }

  ghost predicate FreesFirst(w: Work, m: nat, t: Target)
    requires m < |w.infos|
  {
    t.installed.Some? && FreesOn(w.infos, w.sys, m, t.installed.value)
  }

  /** Some file of a removed or replaced package lies on the mount point. */
  ghost predicate TakenFrom(w: Work, m: nat, n: nat)
    requires m < |w.infos| && n <= |w.adds|
  {
    if n == 0 then RemovedFrom(w, m, |w.removes|) else TakenFrom(w, m, n - 1) || FreesFirst(w, m, w.adds[n - 1])
  }

  /** Some file of a target goes to the mount point. */
  ghost predicate PutOn(w: Work, m: nat, n: nat)
    requires m < |w.infos| && n <= |w.adds|
  {
    n > 0 && (PutOn(w, m, n - 1) || TakesOn(w.infos, w.sys, m, w.adds[n - 1].files))
  }

  function Max(a: int, b: int): int { if a > b then a else b }

  function Peak(w: Work, m: nat, n: nat): int
    requires m < |w.infos| && n <= |w.adds|
  {
    if n == 0 then 0 else Max(Net(w, m, n), Peak(w, m, n - 1))
  }

  /** After all removals and any number of the first n targets, no more than room is charged. */
  ghost predicate AlwaysWithin(w: Work, m: nat, n: nat, room: int)
    requires m < |w.infos| && n <= |w.adds|
  {
    forall k :: 0 <= k <= n ==> Net(w, m, k) <= room
  }

  /** The peak fits exactly when every moment does, an empty one included. */
  lemma {:induction false} PeakFits(w: Work, m: nat, n: nat, room: int)
    requires m < |w.infos| && n <= |w.adds|
    ensures Peak(w, m, n) <= room <==> 0 <= room && AlwaysWithin(w, m, n, room)
    decreases n
  {
    if n == 0 {
      assert Net(w, m, 0) <= 0;
    } else {
      PeakFits(w, m, n - 1, room);
      assert AlwaysWithin(w, m, n, room) <==> AlwaysWithin(w, m, n - 1, room) && Net(w, m, n) <= room;
    }
  }

  lemma PeakNatural(w: Work, m: nat, n: nat)
    requires m < |w.infos| && n <= |w.adds|
    ensures Peak(w, m, n) >= 0
    decreases n
  {
    hide Net;
  }

  /** One mount point fits exactly when it is not refused. */
  lemma FitsIff(w: Work, m: nat)
    requires m < |w.infos| && w.infos[m].bsize > 0
    ensures var info, n := w.infos[m], |w.adds|;
            Fits(w, m) <==>
            && !((TakenFrom(w, m, n) || PutOn(w, m, n)) && info.readOnly)
            && !(PutOn(w, m, n) && Peak(w, m, n) + Cushion(info) > info.bavail)
  {
    hide Cushion, AlwaysWithin;
    PeakFits(w, m, |w.adds|, w.infos[m].bavail - Cushion(w.infos[m]));
  }

  /** The space kept free, in blocks. */
  function Cushion(info: Info): nat
    requires info.bsize > 0
  {
    var fivepc, twentymb := info.blocks / 20 + 1, 20 * 1024 * 1024 / info.bsize + 1;
    if fivepc < twentymb then fivepc else twentymb
  }

  /** The cushion is five percent of the capacity or twenty mebibytes, whichever is less, rounded
      down to whole blocks, and one block more. */
  lemma CushionBounds(info: Info)
    requires info.bsize > 0
    ensures var c := Cushion(info) - 1;
            && 20 * c <= info.blocks && c * info.bsize <= 20 * 1024 * 1024
            && (20 * (c + 1) > info.blocks || (c + 1) * info.bsize > 20 * 1024 * 1024)
  {
  }

  /** What passing the check means for one mount point: if anything happens there it can be
      written to, and if anything is put there, then after all removals and any number of
      targets what has been charged fits the free blocks with the cushion to spare. */
  ghost predicate Fits(w: Work, m: nat)
    requires m < |w.infos| && w.infos[m].bsize > 0
  {
    var info, n := w.infos[m], |w.adds|;
    && (TakenFrom(w, m, n) || PutOn(w, m, n) ==> !info.readOnly)
    && (PutOn(w, m, n) ==>
          Cushion(info) <= info.bavail && AlwaysWithin(w, m, n, info.bavail - Cushion(info)))
  }

  /** The account of a mount point after the first n targets. */
  ghost predicate Account(mp: Mount, w: Work, m: nat, n: nat)
    requires m < |w.infos| && n <= |w.adds|
    reads mp
  {
    && mp.blocksNeeded == Net(w, m, n) && mp.maxBlocksNeeded == Peak(w, m, n)
    && mp.usedRemove == TakenFrom(w, m, n) && mp.usedInstall == PutOn(w, m, n)
  }

  /** The loop over the removals. */
  method ChargeRemovals(mounts: seq<Mount>, w: Work)
    requires Valid(mounts) && w.infos == InfosOf(mounts) && Fresh(mounts)
    modifies mounts
    ensures Valid(mounts) && forall m :: 0 <= m < |mounts| ==> Account(mounts[m], w, m, 0)
  {
    hide Valid, InfosOf, Freed, FreesOn;
    for i := 0 to |w.removes|
      invariant Valid(mounts)
      invariant forall m :: 0 <= m < |mounts| ==>
                  Charged(mounts[m], 0, 0, false, false, FreedBy(w, m, i), RemovedFrom(w, m, i), false)
    {
      CalculateRemovedSize(mounts, w.sys, w.removes[i]);
    }
  }

  ghost predicate Fresh(mounts: seq<Mount>)
    reads mounts
  {
    forall m :: 0 <= m < |mounts| ==> Charged(mounts[m], 0, 0, false, false, 0, false, false)
  }

  /** One target: its old version goes, it comes, and the peak follows. */
  method ChargeTarget(mounts: seq<Mount>, w: Work, i: nat)
    requires i < |w.adds| && Valid(mounts) && w.infos == InfosOf(mounts)
    requires forall m :: 0 <= m < |mounts| ==> Account(mounts[m], w, m, i)
    modifies mounts
    ensures Valid(mounts) && forall m :: 0 <= m < |mounts| ==> Account(mounts[m], w, m, i + 1)
  {
    hide Valid, InfosOf, Freed, FreesOn, Taken, TakesOn;
    var t := w.adds[i];
    if t.installed.Some? {
      CalculateRemovedSize(mounts, w.sys, t.installed.value);
    }
    assert forall m :: 0 <= m < |mounts| ==> Charged(mounts[m], Net(w, m, i), Peak(w, m, i), TakenFrom(w, m, i), PutOn(w, m, i),
             FreedFirst(w, m, t), FreesFirst(w, m, t), false);
    CalculateInstalledSize(mounts, w.sys, t.files);
    RaisePeaks(mounts);
  }

  method RaisePeaks(mounts: seq<Mount>)
    requires Valid(mounts)
    modifies mounts
    ensures Valid(mounts)
    ensures forall m :: 0 <= m < |mounts| ==> Charged(mounts[m], old(mounts[m].blocksNeeded),
              Max(old(mounts[m].blocksNeeded), old(mounts[m].maxBlocksNeeded)),
              old(mounts[m].usedRemove), old(mounts[m].usedInstall), 0, false, false)
  {
    for i := 0 to |mounts|
      invariant Valid(mounts)
      invariant forall m :: 0 <= m < i ==> Charged(mounts[m], old(mounts[m].blocksNeeded),
                  Max(old(mounts[m].blocksNeeded), old(mounts[m].maxBlocksNeeded)),
                  old(mounts[m].usedRemove), old(mounts[m].usedInstall), 0, false, false)
      invariant forall m :: i <= m < |mounts| ==> Charged(mounts[m], old(mounts[m].blocksNeeded), old(mounts[m].maxBlocksNeeded),
                  old(mounts[m].usedRemove), old(mounts[m].usedInstall), 0, false, false)
    {
      if mounts[i].blocksNeeded > mounts[i].maxBlocksNeeded {
        mounts[i].maxBlocksNeeded := mounts[i].blocksNeeded;
      }
    }
  }

  /** check_mountpoint */
  method CheckMountpoint(mp: Mount) returns (full: bool)
    requires mp.info.bsize > 0 && mp.maxBlocksNeeded >= 0
    ensures full <==> mp.maxBlocksNeeded + Cushion(mp.info) > mp.info.bavail
  {
    var fivepc := mp.info.blocks / 20 + 1;
    var twentymb := 20 * 1024 * 1024 / mp.info.bsize + 1;
    var cushion := if fivepc < twentymb then fivepc else twentymb;
    var needed := mp.maxBlocksNeeded + cushion;
    full := needed >= 0 && needed > mp.info.bavail;
  }

  /** _klpm_check_diskspace passes exactly when the root has a mount point and everything fits. */
  method CheckDiskspace(mounts: seq<Mount>, w: Work) returns (ok: bool)
    requires Valid(mounts) && w.infos == InfosOf(mounts) && Fresh(mounts)
    modifies mounts
    ensures ok <==> Match(w.infos, w.sys.root) < |w.infos| && forall m :: 0 <= m < |w.infos| ==> Fits(w, m)
  {
    hide InfosOf, Match, Fits, Charged;
    var root := MatchMountPoint(mounts, w.sys.root);
    if mounts == [] || root == |mounts| {
      return false;
    }
    ChargeRemovals(mounts, w);
    for i := 0 to |w.adds|
      invariant Valid(mounts) && forall m :: 0 <= m < |mounts| ==> Account(mounts[m], w, m, i)
    {
      ChargeTarget(mounts, w, i);
    }
    ok := CheckAll(mounts, w);
  }

  method CheckAll(mounts: seq<Mount>, w: Work) returns (ok: bool)
    requires Valid(mounts) && w.infos == InfosOf(mounts)
    requires forall m :: 0 <= m < |mounts| ==> Account(mounts[m], w, m, |w.adds|)
    ensures ok <==> forall m :: 0 <= m < |w.infos| ==> Fits(w, m)
  {
    hide InfosOf, Match, Net, TakenFrom, PutOn, Cushion, Fits, Peak;
    ok := true;
    for m := 0 to |mounts|
      invariant ok <==> forall k :: 0 <= k < m ==> Fits(w, k)
    {
      var data := mounts[m];
      PeakNatural(w, m, |w.adds|);
      FitsIff(w, m);
      if (data.usedRemove || data.usedInstall) && data.info.readOnly {
        ok := false;
      } else if data.usedInstall {
        var full := CheckMountpoint(data);
        if full {
          ok := false;
        }
      }
    }
  }
}
