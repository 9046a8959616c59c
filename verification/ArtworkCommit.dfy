/** `PendingArtworkWrite`: swapping finished temporaries into place, the database last. */
module ArtworkCommit {
  import opened IthmbPaths
  import opened IthmbShards

  const ARTWORK_DB := "ArtworkDB"

  datatype Rename = Rename(temp: FileKey, final: string)

  /** `durable_replace(temp, final)` */
  function Replace(disk: Disk, r: Rename): Disk
    requires r.temp in disk
  {
    (disk - {r.temp})[Final(r.final) := disk[r.temp]]
  }

  /** Every temporary exists, and no two renames share a temporary or a target. */
  ghost predicate Ready(disk: Disk, renames: seq<Rename>) {
    && (forall j | 0 <= j < |renames| :: renames[j].temp.Temp? && renames[j].temp in disk)
    && (forall i, j | 0 <= i < j < |renames| :: renames[i].temp != renames[j].temp && renames[i].final != renames[j].final)
  }

  /** The device after `renames`, in order. */
  ghost function After(disk: Disk, renames: seq<Rename>): Disk {
    if renames == [] then disk
    else
      var before := After(disk, renames[..|renames| - 1]);
      var r := renames[|renames| - 1];
      if r.temp in before then Replace(before, r) else before
  }

  ghost predicate IsTarget(renames: seq<Rename>, name: string) {
    exists j :: 0 <= j < |renames| && renames[j].final == name
  }

  lemma TargetOfPrefix(renames: seq<Rename>, n: nat, name: string)
    requires n <= |renames| && IsTarget(renames[..n], name)
    ensures IsTarget(renames, name)
  {
    var j :| 0 <= j < n && renames[..n][j].final == name;
    assert renames[j].final == name;
  }

  /** What a run of renames leaves: each target holds its temporary's bytes, every other file is
      untouched, and the temporaries not yet renamed are still there. */
  lemma {:induction false} AfterSpec(disk: Disk, renames: seq<Rename>)
    requires Ready(disk, renames)
    ensures var d := After(disk, renames);
      && (forall j | 0 <= j < |renames| :: Final(renames[j].final) in d && d[Final(renames[j].final)] == disk[renames[j].temp])
      && (forall name | !IsTarget(renames, name) ::
            (Final(name) in d <==> Final(name) in disk) && (Final(name) in disk ==> d[Final(name)] == disk[Final(name)]))
      && (forall n | Temp(n) in disk && (forall j | 0 <= j < |renames| :: renames[j].temp != Temp(n)) ::
            Temp(n) in d && d[Temp(n)] == disk[Temp(n)])
  {
    if renames != [] {
      var n := |renames| - 1;
      var front, r := renames[..n], renames[n];
      AfterSpec(disk, front);
      var before := After(disk, front);
      assert r.temp in before && before[r.temp] == disk[r.temp];
      forall name | !IsTarget(renames, name) ensures !IsTarget(front, name) && name != r.final {
        if IsTarget(front, name) { TargetOfPrefix(renames, n, name); }
      }
      assert !IsTarget(front, r.final);
    }
  }

  /** The device that the commit works on. */
  class Device {
    var disk: Disk

    constructor (disk: Disk)
      ensures this.disk == disk
    {
      this.disk := disk;
    }
  }

  class PendingArtworkWrite {
    const renames: seq<Rename>
    var committed: bool

    constructor (renames: seq<Rename>)
      ensures this.renames == renames && !committed
    {
      this.renames, this.committed := renames, false;
    }

    /** `commit()`, where the device fails after `limit` replacements if there are more.
        `done` counts the replacements that took place. */
    method Commit(device: Device, limit: nat) returns (ok: bool, ghost done: nat)
      requires committed || Ready(device.disk, renames)
      modifies this`committed, device
      ensures old(committed) ==> ok && committed && device.disk == old(device.disk)
      ensures !old(committed) ==>
        && done <= |renames| && device.disk == After(old(device.disk), renames[..done])
        && ok == committed == (done == |renames|)
        && (done < |renames| ==> done == limit)
    {
      if committed {
        return true, 0;
      }
      done := 0;
      assert renames[..0] == [];
      for i := 0 to |renames|
        invariant done == i <= limit && !committed
        invariant device.disk == After(old(device.disk), renames[..i])
      {
        TempStays(old(device.disk), renames, i);
        if i == limit {
          return false, i;
        }
        assert renames[..i + 1][..i] == renames[..i];
        device.disk := Replace(device.disk, renames[i]);
        done := i + 1;
      }
      assert renames[..|renames|] == renames;
      committed := true;
      return true, |renames|;
    }

    /** `abort()`, where removing the temporaries in `stuck` fails and the failure is ignored. */
    method Abort(device: Device, stuck: set<FileKey>)
      requires forall j | 0 <= j < |renames| :: renames[j].temp.Temp?
      modifies device
      ensures committed ==> device.disk == old(device.disk)
      ensures forall name :: (Final(name) in device.disk <==> Final(name) in old(device.disk))
                             && (Final(name) in device.disk ==> device.disk[Final(name)] == old(device.disk)[Final(name)])
      ensures !committed ==> forall j | 0 <= j < |renames| && renames[j].temp !in stuck :: renames[j].temp !in device.disk
    {
      if committed {
        return;
      }
      for i := 0 to |renames|
        invariant forall name :: (Final(name) in device.disk <==> Final(name) in old(device.disk))
                                 && (Final(name) in device.disk ==> device.disk[Final(name)] == old(device.disk)[Final(name)])
        invariant forall j | 0 <= j < i && renames[j].temp !in stuck :: renames[j].temp !in device.disk
      {
        if renames[i].temp !in stuck {
          device.disk := device.disk - {renames[i].temp};
        }
      }
    }
  }

  lemma TempStays(disk: Disk, renames: seq<Rename>, i: nat)
    requires Ready(disk, renames) && i < |renames|
    ensures renames[i].temp in After(disk, renames[..i])
  {
    hide After;
    AfterSpec(disk, renames[..i]);
    assert forall j | 0 <= j < i :: renames[..i][j] == renames[j];
  }

  predicate KeyLess(a: (nat, nat), b: (nat, nat)) {
    a.0 < b.0 || (a.0 == b.0 && a.1 < b.1)
  }

  /** The shard renames in the order of `sorted(ithmb_temp_paths)`, and then the database. */
  ghost predicate IsRenameList(temps: map<(nat, nat), FileKey>, database: FileKey, renames: seq<Rename>, keys: seq<(nat, nat)>) {
    && |renames| == |keys| + 1
    && renames[|keys|] == Rename(database, ARTWORK_DB)
    && (forall i, j | 0 <= i < j < |keys| :: KeyLess(keys[i], keys[j]))
    && (forall k :: k in keys <==> k in temps)
    && (forall j | 0 <= j < |keys| :: renames[j] == Rename(temps[keys[j]], IthmbFilename(keys[j].0, keys[j].1)))
  }

  lemma {:induction false} LeastKey(s: set<(nat, nat)>) returns (k: (nat, nat))
    requires s != {}
    ensures k in s && forall x | x in s :: x == k || KeyLess(k, x)
  {
    var y: (nat, nat) :| y in s;
    if s == {y} {
      k := y;
    } else {
      var m := LeastKey(s - {y});
      k := if KeyLess(y, m) then y else m;
      assert forall x | x in s :: x == y || x in s - {y};
    }
  }

  /** Collecting the pending renames. */
  method CollectRenames(temps: map<(nat, nat), FileKey>, database: FileKey)
    returns (renames: seq<Rename>, ghost keys: seq<(nat, nat)>)
    ensures IsRenameList(temps, database, renames, keys)
  {
    renames, keys := [], [];
    var rest := temps.Keys;
    while rest != {}
      invariant rest <= temps.Keys && |renames| == |keys|
      invariant forall i, j | 0 <= i < j < |keys| :: KeyLess(keys[i], keys[j])
      invariant forall i, k | 0 <= i < |keys| && k in rest :: KeyLess(keys[i], k)
      invariant forall k :: k in temps <==> k in keys || k in rest
      invariant forall j | 0 <= j < |keys| ::
        keys[j] in temps && renames[j] == Rename(temps[keys[j]], IthmbFilename(keys[j].0, keys[j].1))
      decreases rest
    {
      ghost var least := LeastKey(rest);
      var key: (nat, nat) :| key in rest && forall x | x in rest :: x == key || KeyLess(key, x);
      renames := renames + [Rename(temps[key], IthmbFilename(key.0, key.1))];
      keys := keys + [key];
      rest := rest - {key};
    }
    renames := renames + [Rename(database, ARTWORK_DB)];
  }

  lemma NotAShard(f: nat, i: nat)
    ensures IthmbFilename(f, i) != ARTWORK_DB
  {
    assert IthmbFilename(f, i)[0] == 'F';
  }

  /** Finished shards and a finished database are ready to be renamed. */
  lemma RenamesReady(s: Shards, database: FileKey, renames: seq<Rename>, keys: seq<(nat, nat)>)
    requires s.Stored() && IsRenameList(s.temps, database, renames, keys)
    requires database.Temp? && database in s.disk && database !in s.temps.Values
    ensures Ready(s.disk, renames)
  {
    hide Content;
    hide IthmbFilename;
    hide Aligned;
    forall i, j | 0 <= i < j < |renames| ensures renames[i].temp != renames[j].temp && renames[i].final != renames[j].final {
      var a := keys[i];
      assert a in keys && s.Wrote(a.0, a.1);
      if j == |keys| {
        NotAShard(a.0, a.1);
        assert s.temps[a] in s.temps.Values;
      } else {
        var b := keys[j];
        assert b in keys && s.Wrote(b.0, b.1);
        if renames[i].final == renames[j].final { FilenameInjective(a.0, a.1, b.0, b.1); }
      }
    }
    forall j | 0 <= j < |renames| ensures renames[j].temp.Temp? && renames[j].temp in s.disk {
      if j < |keys| {
        assert keys[j] in keys && s.Wrote(keys[j].0, keys[j].1);
      }
    }
  }

  /** At no point of the commit is the new database in place before all the new shards: until
      the last replacement the database is the old one, and after it every shard is new. */
  lemma DatabaseLast(s: Shards, database: FileKey, renames: seq<Rename>, keys: seq<(nat, nat)>, done: nat)
    requires s.Stored() && IsRenameList(s.temps, database, renames, keys)
    requires database.Temp? && database in s.disk && database !in s.temps.Values
    requires done <= |renames|
    ensures var d := After(s.disk, renames[..done]);
      && (done < |renames| ==> (Final(ARTWORK_DB) in d <==> Final(ARTWORK_DB) in s.disk)
                               && (Final(ARTWORK_DB) in d ==> d[Final(ARTWORK_DB)] == s.disk[Final(ARTWORK_DB)]))
      && (done == |renames| ==>
            && Final(ARTWORK_DB) in d && d[Final(ARTWORK_DB)] == s.disk[database]
            && (forall f: nat, i: nat | s.Wrote(f, i) ::
                  Final(IthmbFilename(f, i)) in d && d[Final(IthmbFilename(f, i))] == Content(s.log, f, i)))
  {
    hide Content;
    hide IthmbFilename;
    hide After;
    hide Aligned;
    RenamesReady(s, database, renames, keys);
    var part := renames[..done];
    AfterSpec(s.disk, part);
    if done < |renames| {
      forall j | 0 <= j < |part| ensures part[j].final != ARTWORK_DB {
        NotAShard(keys[j].0, keys[j].1);
      }
      assert !IsTarget(part, ARTWORK_DB);
    } else {
      assert part[|keys|] == renames[|keys|];
      forall f: nat, i: nat | s.Wrote(f, i)
        ensures Final(IthmbFilename(f, i)) in After(s.disk, part)
                && After(s.disk, part)[Final(IthmbFilename(f, i))] == Content(s.log, f, i)
      {
        assert (f, i) in keys;
        var j :| 0 <= j < |keys| && keys[j] == (f, i);
        assert part[j] == renames[j];
      }
    }
  }

  /** The commit leaves a file alone exactly when its name is neither the database's nor that of
      a shard that was written. */
  lemma UntouchedIff(s: Shards, database: FileKey, renames: seq<Rename>, keys: seq<(nat, nat)>, name: string)
    requires IsRenameList(s.temps, database, renames, keys)
    ensures IsTarget(renames, name) <==> name == ARTWORK_DB || exists f: nat, i: nat :: s.Wrote(f, i) && IthmbFilename(f, i) == name
  {
    hide IthmbFilename;
    if IsTarget(renames, name) {
      var j :| 0 <= j < |renames| && renames[j].final == name;
      if j < |keys| {
        assert keys[j] in keys;
        assert s.Wrote(keys[j].0, keys[j].1) && IthmbFilename(keys[j].0, keys[j].1) == name;
      }
    }
    if name == ARTWORK_DB {
      assert renames[|keys|].final == name;
    }
    if f: nat, i: nat :| s.Wrote(f, i) && IthmbFilename(f, i) == name {
      assert (f, i) in keys;
      var j :| 0 <= j < |keys| && keys[j] == (f, i);
      assert renames[j].final == name;
    }
  }
}
