/**
 The swap ids of os/net/queuebuf.c: packets out of RAM live in four files that are filled in turn, counted,
 and renewed once empty. The file system is ideal storage: a file maps offsets to what was last written there.
 */
module QueuebufSwap {
  import opened Options

  const FILES: nat := 4
  const PER_FILE: nat := 256
  const IDS: nat := 1024

  /** A qbuf_file and the records on disk. */
  datatype File<T> = File(usage: int, renewable: bool, disk: map<nat, T>)

  function FileOf(id: nat): nat {
    id / PER_FILE
  }

  function Offset(id: nat): nat {
    id % PER_FILE
  }

  function InFile(live: set<nat>, f: nat): set<nat> {
    set i | i in live && FileOf(i) == f
  }

  // ----- the invariant -----

  /** Each file counts its live ids; a renewable file has none, and is not being filled; in the file that is
      being filled, the live ids lie below the next one. */
  ghost predicate Inv<T>(next: nat, files: seq<File<T>>, live: set<nat>) {
    && next < IDS && |files| == FILES
    && (forall i | i in live :: i < IDS)
    && (forall f | 0 <= f < FILES :: files[f].usage == |InFile(live, f)|)
    && (forall f | 0 <= f < FILES && files[f].renewable ::
          files[f].usage == 0 && (f == FileOf(next) ==> Offset(next) == 0))
    && (Offset(next) > 0 ==> forall i | i in live && FileOf(i) == FileOf(next) :: i < next)
  }

  /** The records of the live ids are what was stored under them. */
  ghost predicate Stored<T>(files: seq<File<T>>, live: map<nat, T>)
    requires |files| == FILES && forall i | i in live :: i < IDS
  {
    forall i | i in live :: Offset(i) in files[FileOf(i)].disk && files[FileOf(i)].disk[Offset(i)] == live[i]
  }

  lemma InFileAdd(live: set<nat>, id: nat, f: nat)
    requires id !in live
    ensures |InFile(live + {id}, f)| == |InFile(live, f)| + if FileOf(id) == f then 1 else 0
  {
    if FileOf(id) == f {
      assert InFile(live + {id}, f) == InFile(live, f) + {id};
    } else {
      assert InFile(live + {id}, f) == InFile(live, f);
    }
  }

  lemma InFileRemove(live: set<nat>, id: nat, f: nat)
    requires id in live
    ensures |InFile(live - {id}, f)| == |InFile(live, f)| - if FileOf(id) == f then 1 else 0
  {
    if FileOf(id) == f {
      assert InFile(live - {id}, f) == InFile(live, f) - {id};
    } else {
      assert InFile(live - {id}, f) == InFile(live, f);
    }
  }

  lemma NoneLive<T>(next: nat, files: seq<File<T>>, live: set<nat>, f: nat, i: nat)
    requires Inv(next, files, live) && f < FILES && files[f].usage == 0 && i in live
    ensures FileOf(i) != f
  {
    assert i in InFile(live, f) <==> FileOf(i) == f;
  }

  lemma IdsSplit(next: nat)
    requires next < IDS
    ensures FileOf(next) < FILES && Offset(next) < PER_FILE && next == FileOf(next) * PER_FILE + Offset(next)
  {
  }

  lemma NextId(next: nat)
    requires next < IDS
    ensures var n := (next + 1) % IDS;
            n < IDS && (Offset(n) > 0 ==> FileOf(n) == FileOf(next) && n == next + 1)
  {
  }

  function Counted<T>(files: seq<File<T>>, f: nat, n: int): (r: seq<File<T>>)
    requires f < |files|
    ensures |r| == |files|
  {
    files[f := files[f].(usage := files[f].usage + n)]
  }

  /** The next id is free whenever the file that it opens is empty, and taking it keeps the invariant. */
  lemma TakeKeeps<T>(next: nat, files: seq<File<T>>, live: set<nat>)
    requires Inv(next, files, live)
    requires Offset(next) == 0 ==> files[FileOf(next)].usage == 0 && !files[FileOf(next)].renewable
    ensures next !in live
    ensures Inv((next + 1) % IDS, Counted(files, FileOf(next), 1), live + {next})
  {
    IdsSplit(next);
    NextId(next);
    var f0 := FileOf(next);
    assert next !in live by {
      if next in live && Offset(next) == 0 {
        NoneLive(next, files, live, f0, next);
      }
    }
    var files1, live1 := Counted(files, f0, 1), live + {next};
    forall f | 0 <= f < FILES
      ensures files1[f].usage == |InFile(live1, f)|
    {
      InFileAdd(live, next, f);
    }
    forall i | i in live && FileOf(i) == f0
      ensures i < next
    {
      if Offset(next) == 0 {
        NoneLive(next, files, live, f0, i);
      }
    }
  }

  /** Releasing a live id keeps the invariant; an empty file that is not being filled becomes renewable. */
  lemma ReleaseKeeps<T>(next: nat, files: seq<File<T>>, live: set<nat>, id: nat)
    requires Inv(next, files, live) && id in live
    ensures FileOf(id) < FILES
    ensures var counted := Counted(files, FileOf(id), -1);
            var f := FileOf(id);
            && Inv(next, counted, live - {id})
            && (counted[f].usage == 0 && f != FileOf(next) ==>
                  Inv(next, counted[f := counted[f].(renewable := true)], live - {id}))
  {
    IdsSplit(id);
    var f0 := FileOf(id);
    var counted, live1 := Counted(files, f0, -1), live - {id};
    assert id in InFile(live, f0);
    forall f | 0 <= f < FILES
      ensures counted[f].usage == |InFile(live1, f)|
    {
      InFileRemove(live, id, f);
    }
    assert Inv(next, counted, live1);
    var marked := counted[f0 := counted[f0].(renewable := true)];
    assert forall f | 0 <= f < FILES :: marked[f].usage == counted[f].usage;
  }

  /** Renewing an empty file keeps the invariant and every live record. */
  lemma RenewKeeps<T>(next: nat, files: seq<File<T>>, live: map<nat, T>, f: nat, disk: map<nat, T>)
    requires Inv(next, files, live.Keys) && Stored(files, live) && f < FILES && files[f].usage == 0
    ensures var files1 := files[f := File(0, false, disk)];
            Inv(next, files1, live.Keys) && Stored(files1, live)
  {
    var files1 := files[f := File(0, false, disk)];
    assert forall g | 0 <= g < FILES :: files1[g].usage == files[g].usage;
    forall i | i in live
      ensures files1[FileOf(i)] == files[FileOf(i)]
    {
      NoneLive(next, files, live.Keys, f, i);
    }
  }

  /** A record written under a fresh id does not touch the others. */
  lemma WriteKeeps<T>(files: seq<File<T>>, live: map<nat, T>, id: nat, data: T)
    requires |files| == FILES && (forall i | i in live :: i < IDS) && Stored(files, live) && id < IDS && id !in live
    ensures var f := files[FileOf(id)];
            Stored(files[FileOf(id) := f.(disk := f.disk[Offset(id) := data])], live[id := data])
  {
    var f := files[FileOf(id)];
    var files1 := files[FileOf(id) := f.(disk := f.disk[Offset(id) := data])];
    forall i | i in live
      ensures Offset(i) in files1[FileOf(i)].disk && files1[FileOf(i)].disk[Offset(i)] == live[i]
    {
      IdsSplit(i);
      IdsSplit(id);
    }
  }

  // ----- the code -----

  class SwapFiles<T(==)> {
    var next_swap_id: nat
    var qbuf_files: seq<File<T>>
    /** The ids handed out and not released, with what was stored under them. */
    ghost var live: map<nat, T>

    ghost predicate Valid()
      reads this
    {
      Inv(next_swap_id, qbuf_files, live.Keys) && Stored(qbuf_files, live)
    }

    /** queuebuf_init, with whatever an earlier run left on the disk. */
    constructor (disks: seq<map<nat, T>>)
      requires |disks| == FILES
      ensures Valid() && live == map[] && next_swap_id == 0
    {
      next_swap_id := 0;
      live := map[];
      qbuf_files := seq(FILES, f requires 0 <= f < FILES => File(0, true, disks[f]));
      new;
      assert forall f | 0 <= f < FILES :: InFile(live.Keys, f) == {};
      RenewAll();
    }

    /** qbuf_renew_file: the file starts again, empty. */
    method RenewFile(file: nat)
      requires Valid() && file < FILES && qbuf_files[file].renewable
      modifies `qbuf_files
      ensures Valid() && qbuf_files == old(qbuf_files)[file := File(0, false, map[])]
    {
      RenewKeeps(next_swap_id, qbuf_files, live, file, map[]);
      qbuf_files := qbuf_files[file := File(0, false, map[])];
    }

    /** qbuf_renew_all: every renewable file is renewed, and nothing that is live is lost. */
    method RenewAll()
      requires Valid()
      modifies `qbuf_files
      ensures Valid() && forall f | 0 <= f < FILES ::
                qbuf_files[f] == if old(qbuf_files)[f].renewable then File(0, false, map[]) else old(qbuf_files)[f]
    {
      for i := 0 to FILES
        invariant Valid()
        invariant forall f | i <= f < FILES :: qbuf_files[f] == old(qbuf_files)[f]
        invariant forall f | 0 <= f < i ::
                    qbuf_files[f] == if old(qbuf_files)[f].renewable then File(0, false, map[]) else old(qbuf_files)[f]
      {
        if qbuf_files[i].renewable {
          RenewFile(i);
        }
      }
    }

    /** queuebuf_remove_from_file; None stands for the id -1. */
    method RemoveFromFile(swap_id: Option<nat>)
      requires Valid() && (swap_id.Some? ==> swap_id.value in live)
      modifies this
      ensures Valid() && next_swap_id == old(next_swap_id)
      ensures live == if swap_id.Some? then old(live) - {swap_id.value} else old(live)
      ensures swap_id == None ==> qbuf_files == old(qbuf_files)
      ensures swap_id.Some? ==>
                var f := FileOf(swap_id.value);
                var counted := Counted(old(qbuf_files), f, -1);
                && qbuf_files == (if f != FileOf(next_swap_id) && InFile(live.Keys, f) == {}
                                  then counted[f := counted[f].(renewable := true)] else counted)
    {
      if swap_id.Some? {
        var id := swap_id.value;
        var fileid := FileOf(id);
        ReleaseKeeps(next_swap_id, qbuf_files, live.Keys, id);
        assert (live - {id}).Keys == live.Keys - {id};
        qbuf_files := Counted(qbuf_files, fileid, -1);
        live := live - {id};
        if qbuf_files[fileid].usage == 0 && fileid != FileOf(next_swap_id) {
          qbuf_files := qbuf_files[fileid := qbuf_files[fileid].(renewable := true)];
        }
      }
    }

    /** get_new_swap_id. It fails exactly when the file that would have to be opened still holds a live record,
        and then changes nothing; otherwise the id is not live. */
    method GetNewSwapId() returns (swap_id: Option<nat>)
      requires Valid()
      modifies `next_swap_id, `qbuf_files
      ensures swap_id == None <==>
                Offset(old(next_swap_id)) == 0 && exists i :: i in live && FileOf(i) == FileOf(old(next_swap_id))
      ensures swap_id == None ==> Valid() && next_swap_id == old(next_swap_id)
      ensures swap_id.Some? ==>
                && swap_id.value == old(next_swap_id) && swap_id.value !in live
                && next_swap_id == (swap_id.value + 1) % IDS
                && Inv(next_swap_id, qbuf_files, live.Keys + {swap_id.value}) && Stored(qbuf_files, live)
    {
      var id := next_swap_id;
      var fileid := FileOf(id);
      Occupied(next_swap_id, qbuf_files, live.Keys, fileid);
      if Offset(id) == 0 {
        if qbuf_files[fileid].renewable {
          RenewFile(fileid);
        }
        if qbuf_files[fileid].usage > 0 {
          return None;
        }
      }
      TakeKeeps(next_swap_id, qbuf_files, live.Keys);
      qbuf_files := Counted(qbuf_files, fileid, 1);
      next_swap_id := (next_swap_id + 1) % IDS;
      return Some(id);
    }

    /** A new swap id and, as in queuebuf_flush_tmpdata, the record written under it. */
    method Store(data: T) returns (swap_id: Option<nat>)
      requires Valid()
      modifies this
      ensures Valid()
      ensures swap_id == None <==>
                Offset(old(next_swap_id)) == 0 && exists i :: i in old(live) && FileOf(i) == FileOf(old(next_swap_id))
      ensures swap_id == None ==> live == old(live)
      ensures swap_id.Some? ==> swap_id.value !in old(live) && live == old(live)[swap_id.value := data]
    {
      swap_id := GetNewSwapId();
      if swap_id.Some? {
        var id := swap_id.value;
        WriteKeeps(qbuf_files, live, id, data);
        Write(id, data);
        assert live[id := data].Keys == live.Keys + {id};
        live := live[id := data];
      }
    }

    /** cfs_seek and cfs_write. */
    method Write(id: nat, data: T)
      requires |qbuf_files| == FILES && id < IDS
      modifies `qbuf_files
      ensures var f := old(qbuf_files)[FileOf(id)];
              qbuf_files == old(qbuf_files)[FileOf(id) := f.(disk := f.disk[Offset(id) := data])]
    {
      var f := qbuf_files[FileOf(id)];
      qbuf_files := qbuf_files[FileOf(id) := f.(disk := f.disk[Offset(id) := data])];
    }

    /** The read in queuebuf_load_to_ram: what was stored under the id. */
    method Load(id: nat) returns (data: T)
      requires Valid() && id in live
      ensures data == live[id]
    {
      IdsSplit(id);
      data := qbuf_files[FileOf(id)].disk[Offset(id)];
    }
  }

  lemma Occupied<T>(next: nat, files: seq<File<T>>, live: set<nat>, f: nat)
    requires Inv(next, files, live) && f < FILES
    ensures files[f].usage > 0 <==> exists i :: i in live && FileOf(i) == f
  {
    assert forall i :: i in InFile(live, f) <==> i in live && FileOf(i) == f;
    if files[f].usage > 0 {
      var i :| i in InFile(live, f);
    } else {
      assert InFile(live, f) == {};
    }
  }
}
