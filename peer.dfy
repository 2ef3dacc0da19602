/** One running peer: the package state `Me`, `Succ`, `Pred` and `Files` of the peer
    code, the local disk it reads and writes, and a log of the `SetFile` calls it has
    made to other peers. Each method is one RPC handler or local operation; remote
    calls it would make are appended to `outbox` for the network to deliver. */
module Peer {
  import opened Common
  import opened Fnv
  import opened Base64
  import opened Ring
  import opened FileStore

  /** The state of a migration loop over the index `files0` and disk `disk0` that has
      still to visit the keys in `pending`: it has sent the keys of `order` (each
      once), removed their names `sent` from disk, and dropped them from the index. */
  ghost predicate Migrating(files0: map<uint32, Bytes>, disk0: map<Bytes, Bytes>, bound: uint32,
                            pending: set<uint32>, files: map<uint32, Bytes>, disk: map<Bytes, Bytes>,
                            order: seq<uint32>, sent: set<Bytes>)
  {
    && IndexConsistent(files0)
    && IndexLeft(files0, bound, pending, files)
    && Dispatched(files0, disk0, bound, pending, disk, order, sent)
  }

  /** The index still holds the keys below the bound and the keys not yet visited. */
  ghost predicate IndexLeft(files0: map<uint32, Bytes>, bound: uint32, pending: set<uint32>, files: map<uint32, Bytes>) {
    && pending <= files0.Keys
    && (forall k :: k in files <==> k in files0 && (k in pending || k < bound))
    && (forall k :: k in files ==> files[k] == files0[k])
  }

  /** `order` lists, once each, the visited keys at or above the bound, and `sent`
      their names, which are gone from disk. */
  ghost predicate Dispatched(files0: map<uint32, Bytes>, disk0: map<Bytes, Bytes>, bound: uint32,
                             pending: set<uint32>, disk: map<Bytes, Bytes>, order: seq<uint32>, sent: set<Bytes>)
  {
    && (forall i :: 0 <= i < |order| ==> order[i] in files0)
    && (forall i, j :: 0 <= i < j < |order| ==> order[i] != order[j])
    && (forall k :: k in order <==> k in files0 && k !in pending && k >= bound)
    && (forall k :: k in order ==> k in files0 && files0[k] in sent)
    && (forall n :: n in sent ==> Hash(n) in order && files0[Hash(n)] == n)
    && disk == disk0 - sent
  }

  /** A key below the bound is left where it is: the loop just moves past it. */
  lemma MigrateSkip(files0: map<uint32, Bytes>, disk0: map<Bytes, Bytes>, bound: uint32,
                    pending: set<uint32>, files: map<uint32, Bytes>, disk: map<Bytes, Bytes>,
                    order: seq<uint32>, sent: set<Bytes>, k: uint32)
    requires Migrating(files0, disk0, bound, pending, files, disk, order, sent)
    requires k in pending && k < bound
    ensures Migrating(files0, disk0, bound, pending - {k}, files, disk, order, sent)
  {
  }

  /** A key at or above the bound is sent, dropped from the index and its file from
      disk; the file it reads is the one the disk held before the loop began. */
  lemma MigrateMove(files0: map<uint32, Bytes>, disk0: map<Bytes, Bytes>, bound: uint32,
                    pending: set<uint32>, files: map<uint32, Bytes>, disk: map<Bytes, Bytes>,
                    order: seq<uint32>, sent: set<Bytes>, k: uint32)
    requires Migrating(files0, disk0, bound, pending, files, disk, order, sent)
    requires k in pending && k >= bound
    ensures k in files && files[k] == files0[k]
    ensures ReadFile(disk, files[k]) == ReadFile(disk0, files0[k])
    ensures Migrating(files0, disk0, bound, pending - {k}, files - {k}, disk - {files[k]}, order + [k], sent + {files[k]})
  {
    DispatchOne(files0, disk0, bound, pending, disk, order, sent, k);
  }

  /** Sending one more key keeps `Dispatched`. */
  lemma DispatchOne(files0: map<uint32, Bytes>, disk0: map<Bytes, Bytes>, bound: uint32,
                    pending: set<uint32>, disk: map<Bytes, Bytes>, order: seq<uint32>, sent: set<Bytes>, k: uint32)
    requires IndexConsistent(files0) && pending <= files0.Keys
    requires Dispatched(files0, disk0, bound, pending, disk, order, sent)
    requires k in pending && k >= bound
    ensures files0[k] !in sent
    ensures Dispatched(files0, disk0, bound, pending - {k}, disk - {files0[k]}, order + [k], sent + {files0[k]})
  {
    var name := files0[k];
    assert Hash(name) == k;
    var order' := order + [k];
    forall i | 0 <= i < |order'| ensures order'[i] in files0 {
      if i < |order| { assert order'[i] == order[i]; }
    }
    assert forall j :: 0 <= j < |order| ==> order[j] != k;
  }

  /** When the loop has visited every key, it has moved exactly the entries at or above
      `bound`, in the order `order`, and removed exactly their names from disk. */
  lemma MigrateDone(files0: map<uint32, Bytes>, disk0: map<Bytes, Bytes>, bound: uint32,
                    files: map<uint32, Bytes>, disk: map<Bytes, Bytes>,
                    order: seq<uint32>, sent: set<Bytes>)
    requires Migrating(files0, disk0, bound, {}, files, disk, order, sent)
    ensures files == KeysBelow(files0, bound) && IndexConsistent(files)
    ensures disk == disk0 - KeysFrom(files0, bound).Values
    ensures Enumerates(order, KeysFrom(files0, bound).Keys)
  {
    assert files == KeysBelow(files0, bound);
    forall n | n in KeysFrom(files0, bound).Values ensures n in sent {
      var k :| k in KeysFrom(files0, bound) && KeysFrom(files0, bound)[k] == n;
      assert k in order;
    }
    forall n | n in sent ensures n in KeysFrom(files0, bound).Values {
      assert KeysFrom(files0, bound)[Hash(n)] == n;
    }
  }

  class PeerNode {
    var me: PeerRef
    var succ: PeerRef
    var pred: PeerRef
    /** `Files`: file key to file name, the files this peer owns. */
    var files: map<uint32, Bytes>
    /** The working directory: file name to bytes. */
    var disk: map<Bytes, Bytes>
    /** Every outbound `SetFile` call this peer has made, oldest first. */
    var outbox: seq<SetFileCall>

    /** The index invariant: every entry is keyed by the hash of its name. */
    predicate Valid()
      reads this
    {
      IndexConsistent(files)
    }

    /** The ring state that `FindSuccessor` decides on. */
    function View(): RingView
      reads this`me, this`succ, this`pred
    {
      RingView(me, succ, pred)
    }

    /** Start-up: the id is the hash of "ip:port" and the peer is a ring of one,
        `Me`, `Succ` and `Pred` all naming itself; `disk` is what the working
        directory already holds. */
    constructor (ip: Bytes, port: Bytes, disk: map<Bytes, Bytes>)
      ensures Valid()
      ensures me == PeerRef(PeerId(ip, port), ip, port) && Address(me) == ip + [Colon] + port
      ensures Addressed(me)
      ensures succ == me && pred == me
      ensures files == map[] && this.disk == disk && outbox == []
    {
      me := PeerRef(PeerId(ip, port), ip, port);
      succ := PeerRef(PeerId(ip, port), ip, port);
      pred := PeerRef(PeerId(ip, port), ip, port);
      files := map[];
      this.disk := disk;
      outbox := [];
    }

    /** `Get`: the successor for "s", the predecessor for "p"; any other selector
        leaves the reply unwritten. */
    method Get(sel: string) returns (r: Option<PeerRef>)
      ensures sel == "s" ==> r == Some(succ)
      ensures sel == "p" ==> r == Some(pred)
      ensures sel != "s" && sel != "p" ==> r == None
    {
      if sel == "s" {
        r := Some(succ);
      } else if sel == "p" {
        r := Some(pred);
      } else {
        r := None;
      }
    }

    /** `Set`: "s" replaces the successor; "p" replaces the predecessor and hands
        every indexed file whose key is at least the new predecessor's id to it;
        any other selector does nothing. `order` is the order the keys were sent in. */
    method Set(sel: string, p: PeerRef) returns (ghost order: seq<uint32>)
      requires Valid()
      modifies this
      ensures Valid() && me == old(me)
      ensures sel == "s" ==>
        && succ == p && pred == old(pred)
        && files == old(files) && disk == old(disk) && outbox == old(outbox)
      ensures sel == "p" ==>
        && succ == old(succ) && pred == p
        && files == KeysBelow(old(files), p.id)
        && disk == old(disk) - KeysFrom(old(files), p.id).Values
        && Enumerates(order, KeysFrom(old(files), p.id).Keys)
        && (forall i :: 0 <= i < |order| ==> order[i] in old(files))
        && outbox == old(outbox) + Transfers(p, old(files), old(disk), order)
      ensures sel != "s" && sel != "p" ==> unchanged(this)
    {
      order := [];
      if sel == "s" {
        succ := p;
      } else if sel == "p" {
        pred := p;
        order := Handoff(p, p.id);
      }
    }

    /** The migration loop shared by `Set("p", …)` and `Leave`: every indexed key at
        least `bound` is read from disk, sent to `dest` with `SetFile`, removed from
        disk and dropped from the index. Keys are visited in an unspecified order,
        as Go's `range` over a map visits them. */
    method Handoff(dest: PeerRef, bound: uint32) returns (ghost order: seq<uint32>)
      requires Valid()
      modifies this`files, this`disk, this`outbox
      ensures Valid()
      ensures files == KeysBelow(old(files), bound)
      ensures disk == old(disk) - KeysFrom(old(files), bound).Values
      ensures Enumerates(order, KeysFrom(old(files), bound).Keys)
      ensures forall i :: 0 <= i < |order| ==> order[i] in old(files)
      ensures outbox == old(outbox) + Transfers(dest, old(files), old(disk), order)
    {
      ghost var files0, disk0, outbox0 := files, disk, outbox;
      ghost var sent: set<Bytes> := {};
      var index, store, calls := files, disk, outbox;
      var pending := index.Keys;
      order := [];
      while pending != {}
        invariant Migrating(files0, disk0, bound, pending, index, store, order, sent)
        invariant calls == outbox0 + Transfers(dest, files0, disk0, order)
        decreases pending
      {
        var k :| k in pending;
        if k >= bound {
          MigrateMove(files0, disk0, bound, pending, index, store, order, sent, k);
          var name := index[k];
          TransfersSnoc(outbox0, dest, files0, disk0, order, k);
          calls := calls + [SetFileCall(dest, ReadFile(store, name))];
          store := store - {name};
          index := index - {k};
          sent := sent + {name};
          order := order + [k];
        } else {
          MigrateSkip(files0, disk0, bound, pending, index, store, order, sent, k);
        }
        pending := pending - {k};
      }
      MigrateDone(files0, disk0, bound, index, store, order, sent);
      files, disk, outbox := index, store, calls;
    }

    /** `GetFile`: the indexed file, read from disk and base64-encoded, or
        "File does not exist." when the key is not indexed. */
    method GetFile(id: uint32) returns (r: Result<File, FileError>)
      requires Valid()
      ensures r.Ok? <==> id in files
      ensures r.Err? ==> r.error == FileDoesNotExist
      ensures r.Ok? ==> r.value.name == files[id] && Hash(r.value.name) == id
      ensures r.Ok? ==> Decode(r.value.encoded) == Some(Content(disk, files[id]))
    {
      if id in files {
        r := Ok(ReadFile(disk, files[id]));
        DecodeEncode(Content(disk, files[id]));
      } else {
        r := Err(FileDoesNotExist);
      }
    }

    /** `SetFile`: index the file under the hash of its name, replacing whatever was
        indexed there, then write its decoded bytes to disk. The entry is indexed
        even when the text does not decode and nothing is written. */
    method SetFile(file: File)
      requires Valid()
      modifies this`files, this`disk
      ensures Valid()
      ensures files == old(files)[Hash(file.name) := file.name]
      ensures disk == WriteFile(old(disk), file)
    {
      files := files[Hash(file.name) := file.name];
      disk := WriteFile(disk, file);
    }

    /** `PopFile`: fetch the indexed file and delete it from disk and index. The entry
        is dropped even when the file is missing from disk, in which case the error
        of `os.Remove` is returned instead of the file. */
    method PopFile(id: uint32) returns (r: Result<File, FileError>)
      requires Valid()
      modifies this`files, this`disk
      ensures Valid()
      ensures id !in old(files) ==> r == Err(FileDoesNotExist) && files == old(files) && disk == old(disk)
      ensures id in old(files) ==>
        var name := old(files)[id];
        && files == old(files) - {id}
        && disk == old(disk) - {name}
        && r == (if name in old(disk) then Ok(ReadFile(old(disk), name)) else Err(RemoveFailed))
    {
      if id in files {
        var name := files[id];
        var f := ReadFile(disk, name);
        var removed := name in disk;
        disk := disk - {name};
        files := files - {id};
        r := if removed then Ok(f) else Err(RemoveFailed);
      } else {
        r := Err(FileDoesNotExist);
      }
    }

    /** `Leave`: unless the peer is alone, hand every indexed file to the successor.
        Neither neighbour is told to re-link, and `Me`, `Succ`, `Pred` stay as they are. */
    method Leave() returns (ghost order: seq<uint32>)
      requires Valid()
      modifies this`files, this`disk, this`outbox
      ensures Valid()
      ensures old(succ.id) == old(me.id) ==>
        files == old(files) && disk == old(disk) && outbox == old(outbox)
      ensures old(succ.id) != old(me.id) ==>
        && files == map[]
        && disk == old(disk) - old(files).Values
        && Enumerates(order, old(files).Keys)
        && (forall i :: 0 <= i < |order| ==> order[i] in old(files))
        && outbox == old(outbox) + Transfers(succ, old(files), old(disk), order)
    {
      order := [];
      if succ.id != me.id {
        order := Handoff(succ, 0);
        assert KeysFrom(old(files), 0) == old(files);
      }
    }
  }
}
