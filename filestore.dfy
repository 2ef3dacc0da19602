/** The file store of one peer as values: the index `Files` from key to file name,
    the local disk from file name to bytes, and the files that travel between peers
    as base64 text. */
module FileStore {
  import opened Common
  import opened Fnv
  import opened Base64
  import opened Ring

  /** `File{Name, Encoded}`: a file in transit, its bytes as base64 text. */
  datatype File = File(name: Bytes, encoded: Bytes)

  /** An outbound `SetFile` call: the peer it is addressed to and the file it carries. */
  datatype SetFileCall = SetFileCall(dest: PeerRef, file: File)

  /** The errors a peer's file RPCs return: "File does not exist." when the key is not
      indexed, and the error of `os.Remove` when the indexed file is not on disk. */
  datatype FileError = FileDoesNotExist | RemoveFailed

  /** Every index entry is keyed by the hash of its name. */
  predicate IndexConsistent(files: map<uint32, Bytes>) {
    forall k :: k in files ==> Hash(files[k]) == k
  }

  /** The bytes read back for a name: a file missing from disk reads as empty,
      because `ReadFile` discards the errors of `os.Open` and `ReadAll`. */
  function Content(disk: map<Bytes, Bytes>, name: Bytes): Bytes {
    if name in disk then disk[name] else []
  }

  /** `ReadFile`: the named file, its content base64-encoded for transport. */
  function ReadFile(disk: map<Bytes, Bytes>, name: Bytes): (r: File)
    ensures r.name == name
    ensures Decode(r.encoded) == Some(Content(disk, name))
  {
    DecodeEncode(Content(disk, name));
    File(name, Encode(Content(disk, name)))
  }

  /** `WriteFile`: the disk after storing a file; text that does not decode is
      reported and nothing is written. */
  function WriteFile(disk: map<Bytes, Bytes>, f: File): (r: map<Bytes, Bytes>)
    ensures Decode(f.encoded).None? ==> r == disk
    ensures Decode(f.encoded).Some? ==> f.name in r && r[f.name] == Decode(f.encoded).value
    ensures r.Keys - {f.name} == disk.Keys - {f.name}
    ensures forall n :: n in disk && n != f.name ==> n in r && r[n] == disk[n]
  {
    match Decode(f.encoded)
    case Some(data) => disk[f.name := data]
    case None => disk
  }

  /** The index entries a peer keeps when its predecessor's id becomes `bound`. */
  function KeysBelow(files: map<uint32, Bytes>, bound: uint32): map<uint32, Bytes> {
    map k | k in files && k < bound :: files[k]
  }

  /** The index entries a peer hands to a new predecessor with id `bound`
      (the test `k >= Pred.Id`). */
  function KeysFrom(files: map<uint32, Bytes>, bound: uint32): map<uint32, Bytes> {
    map k | k in files && k >= bound :: files[k]
  }

  /** Each name given content, as a receiving peer stores the files read from `disk`. */
  function Materialize(names: set<Bytes>, disk: map<Bytes, Bytes>): map<Bytes, Bytes> {
    map n | n in names :: Content(disk, n)
  }

  /** `order` lists every key of `keys` exactly once. */
  ghost predicate Enumerates(order: seq<uint32>, keys: set<uint32>) {
    && (forall i, j :: 0 <= i < j < |order| ==> order[i] != order[j])
    && (forall k :: k in order <==> k in keys)
  }

  /** The `SetFile` calls a migration loop issues when it visits the keys of `order`
      in turn, reading each named file from `disk`. */
  function Transfers(dest: PeerRef, files: map<uint32, Bytes>, disk: map<Bytes, Bytes>, order: seq<uint32>): (calls: seq<SetFileCall>)
    requires forall i :: 0 <= i < |order| ==> order[i] in files
    ensures |calls| == |order|
    decreases |order|
  {
    if order == [] then []
    else
      var last := order[|order| - 1];
      Transfers(dest, files, disk, order[..|order| - 1]) + [SetFileCall(dest, ReadFile(disk, files[last]))]
  }

  /** Visiting one more key issues one more call, at the end of whatever was sent before. */
  lemma TransfersSnoc(sent: seq<SetFileCall>, dest: PeerRef, files: map<uint32, Bytes>, disk: map<Bytes, Bytes>, order: seq<uint32>, k: uint32)
    requires forall i :: 0 <= i < |order| ==> order[i] in files
    requires k in files
    ensures sent + Transfers(dest, files, disk, order + [k])
         == (sent + Transfers(dest, files, disk, order)) + [SetFileCall(dest, ReadFile(disk, files[k]))]
  {
    assert (order + [k])[..|order|] == order;
  }

  /** The call issued for the `i`-th visited key goes to `dest` and carries that key's
      file as read from `disk`. */
  lemma {:induction false} TransfersAt(dest: PeerRef, files: map<uint32, Bytes>, disk: map<Bytes, Bytes>, order: seq<uint32>, i: nat)
    requires forall j :: 0 <= j < |order| ==> order[j] in files
    requires i < |order|
    ensures Transfers(dest, files, disk, order)[i] == SetFileCall(dest, ReadFile(disk, files[order[i]]))
    decreases |order|
  {
    if i < |order| - 1 {
      var front := order[..|order| - 1];
      TransfersAt(dest, files, disk, front, i);
      assert front[i] == order[i];
    }
  }

  /** The index of a receiving peer after it served the calls in order. */
  function ApplyIndex(files: map<uint32, Bytes>, calls: seq<SetFileCall>): map<uint32, Bytes>
    decreases |calls|
  {
    if calls == [] then files
    else
      var name := calls[|calls| - 1].file.name;
      ApplyIndex(files, calls[..|calls| - 1])[Hash(name) := name]
  }

  /** The disk of a receiving peer after it served the calls in order. */
  function ApplyWrites(disk: map<Bytes, Bytes>, calls: seq<SetFileCall>): map<Bytes, Bytes>
    decreases |calls|
  {
    if calls == [] then disk
    else WriteFile(ApplyWrites(disk, calls[..|calls| - 1]), calls[|calls| - 1].file)
  }

  // ----- Properties -----

  /** Indexing a name keeps the index consistent, whatever was stored under its key. */
  lemma IndexInsert(files: map<uint32, Bytes>, name: Bytes)
    requires IndexConsistent(files)
    ensures IndexConsistent(files[Hash(name) := name])
  {
  }

  /** A stored file reads back with the bytes it was sent with: `SetFile` of a
      `ReadFile` result followed by `GetFile` returns the original content. */
  lemma StoreThenRead(disk: map<Bytes, Bytes>, name: Bytes, content: Bytes)
    ensures Content(WriteFile(disk, File(name, Encode(content))), name) == content
    ensures ReadFile(WriteFile(disk, File(name, Encode(content))), name) == File(name, Encode(content))
  {
    DecodeEncode(content);
  }

  /** Storing the same name twice leaves one entry with the later content. */
  lemma StoreOverwrites(disk: map<Bytes, Bytes>, name: Bytes, first: Bytes, second: Bytes)
    ensures WriteFile(WriteFile(disk, File(name, Encode(first))), File(name, Encode(second)))
         == disk[name := second]
  {
    DecodeEncode(first);
    DecodeEncode(second);
  }

  /** The predecessor test splits the index in two disjoint parts that together are
      the whole index, each still consistent. */
  lemma MigrationPartitions(files: map<uint32, Bytes>, bound: uint32)
    requires IndexConsistent(files)
    ensures KeysBelow(files, bound).Keys !! KeysFrom(files, bound).Keys
    ensures KeysBelow(files, bound) + KeysFrom(files, bound) == files
    ensures IndexConsistent(KeysBelow(files, bound)) && IndexConsistent(KeysFrom(files, bound))
    ensures forall k :: k in KeysFrom(files, bound) ==> bound <= k
    ensures forall k :: k in KeysBelow(files, bound) ==> k < bound
  {
    assert KeysBelow(files, bound) + KeysFrom(files, bound) == files;
  }

  /** The entries of `files` under the keys of `order`. */
  function Picked(files: map<uint32, Bytes>, order: seq<uint32>): (m: map<uint32, Bytes>)
    requires forall i :: 0 <= i < |order| ==> order[i] in files
    ensures forall k :: k in m <==> k in order
    ensures forall k :: k in m ==> m[k] == files[k]
    decreases |order|
  {
    if order == [] then map[]
    else
      var last := order[|order| - 1];
      Picked(files, order[..|order| - 1])[last := files[last]]
  }

  /** The files named by the entries of `files` under the keys of `order`, each with
      the content it has on `disk`. */
  function PickedContent(files: map<uint32, Bytes>, disk: map<Bytes, Bytes>, order: seq<uint32>): (m: map<Bytes, Bytes>)
    requires forall i :: 0 <= i < |order| ==> order[i] in files
    ensures forall k :: k in order ==> files[k] in m
    ensures forall n :: n in m ==> m[n] == Content(disk, n)
    ensures IndexConsistent(files) ==> forall n :: n in m ==> Hash(n) in order && files[Hash(n)] == n
    decreases |order|
  {
    if order == [] then map[]
    else
      var last := order[|order| - 1];
      PickedContent(files, disk, order[..|order| - 1])[files[last] := Content(disk, files[last])]
  }

  /** A receiving peer that serves a migration's calls indexes exactly the migrated
      entries, each under its old key. */
  lemma {:induction false} TransfersIndex(dest: PeerRef, files: map<uint32, Bytes>, disk: map<Bytes, Bytes>, order: seq<uint32>, into: map<uint32, Bytes>)
    requires IndexConsistent(files)
    requires forall i :: 0 <= i < |order| ==> order[i] in files
    ensures ApplyIndex(into, Transfers(dest, files, disk, order)) == into + Picked(files, order)
    decreases |order|
  {
    if order != [] {
      var front, last := order[..|order| - 1], order[|order| - 1];
      var calls := Transfers(dest, files, disk, order);
      assert calls[..|calls| - 1] == Transfers(dest, files, disk, front);
      TransfersIndex(dest, files, disk, front, into);
      assert Hash(files[last]) == last;
      MergeUpdate(into, Picked(files, front), last, files[last]);
    }
  }

  /** Storing a file sent as the base64 text of `content` stores exactly `content`. */
  lemma WriteEncoded(disk: map<Bytes, Bytes>, name: Bytes, content: Bytes)
    ensures WriteFile(disk, File(name, Encode(content))) == disk[name := content]
  {
    DecodeEncode(content);
  }

  /** A receiving peer that serves a migration's calls ends up with every migrated
      file on its disk, holding the bytes the sender had (or no bytes, where the
      sender had only the index entry). */
  lemma {:induction false} TransfersWrite(dest: PeerRef, files: map<uint32, Bytes>, disk: map<Bytes, Bytes>, order: seq<uint32>, into: map<Bytes, Bytes>)
    requires forall i :: 0 <= i < |order| ==> order[i] in files
    ensures ApplyWrites(into, Transfers(dest, files, disk, order)) == into + PickedContent(files, disk, order)
    decreases |order|
  {
    if order != [] {
      var front, last := order[..|order| - 1], order[|order| - 1];
      var name := files[last];
      var calls := Transfers(dest, files, disk, order);
      assert calls[..|calls| - 1] == Transfers(dest, files, disk, front);
      assert calls[|calls| - 1].file == File(name, Encode(Content(disk, name)));
      var before := ApplyWrites(into, calls[..|calls| - 1]);
      TransfersWrite(dest, files, disk, front, into);
      WriteEncoded(before, name, Content(disk, name));
      assert ApplyWrites(into, calls) == before[name := Content(disk, name)];
      MergeUpdate(into, PickedContent(files, disk, front), name, Content(disk, name));
    }
  }

  /** Picking every key an order enumerates gives back the entries at or above the bound. */
  lemma PickedKeysFrom(files: map<uint32, Bytes>, order: seq<uint32>, bound: uint32)
    requires forall i :: 0 <= i < |order| ==> order[i] in files
    requires Enumerates(order, KeysFrom(files, bound).Keys)
    ensures Picked(files, order) == KeysFrom(files, bound)
  {
  }

  /** The content picked along an order that enumerates `sub` is every name of `sub`,
      each with its content on `disk`. */
  lemma PickedContentMaterializes(files: map<uint32, Bytes>, disk: map<Bytes, Bytes>, order: seq<uint32>, sub: map<uint32, Bytes>)
    requires IndexConsistent(files)
    requires forall i :: 0 <= i < |order| ==> order[i] in files
    requires Enumerates(order, sub.Keys)
    requires forall k :: k in sub ==> k in files && sub[k] == files[k]
    ensures PickedContent(files, disk, order) == Materialize(sub.Values, disk)
  {
    var m := PickedContent(files, disk, order);
    forall n | n in sub.Values ensures n in m {
      var k :| k in sub && sub[k] == n;
      assert k in order;
    }
    forall n | n in m ensures n in sub.Values {
      assert Hash(n) in order;
      assert sub[Hash(n)] == n;
    }
  }

  /** A migration's calls, served in order by the receiving peer, index there exactly
      the entries at or above the bound and store their files with the content they
      had on the sender's disk; nothing else the receiver holds changes. */
  lemma MigrationDelivered(dest: PeerRef, files: map<uint32, Bytes>, disk: map<Bytes, Bytes>, order: seq<uint32>,
                           bound: uint32, into: map<uint32, Bytes>, intoDisk: map<Bytes, Bytes>)
    requires IndexConsistent(files)
    requires forall i :: 0 <= i < |order| ==> order[i] in files
    requires Enumerates(order, KeysFrom(files, bound).Keys)
    ensures ApplyIndex(into, Transfers(dest, files, disk, order)) == into + KeysFrom(files, bound)
    ensures ApplyWrites(intoDisk, Transfers(dest, files, disk, order))
         == intoDisk + Materialize(KeysFrom(files, bound).Values, disk)
  {
    TransfersIndex(dest, files, disk, order, into);
    TransfersWrite(dest, files, disk, order, intoDisk);
    PickedKeysFrom(files, order, bound);
    PickedContentMaterializes(files, disk, order, KeysFrom(files, bound));
  }

  /** Handing over the whole index: the bound-0 case of `MigrationDelivered`. */
  lemma WholeIndexDelivered(dest: PeerRef, files: map<uint32, Bytes>, disk: map<Bytes, Bytes>, order: seq<uint32>,
                            into: map<uint32, Bytes>, intoDisk: map<Bytes, Bytes>)
    requires IndexConsistent(files)
    requires forall i :: 0 <= i < |order| ==> order[i] in files
    requires Enumerates(order, files.Keys)
    ensures ApplyIndex(into, Transfers(dest, files, disk, order)) == into + files
    ensures ApplyWrites(intoDisk, Transfers(dest, files, disk, order)) == intoDisk + Materialize(files.Values, disk)
  {
    assert KeysFrom(files, 0) == files;
    MigrationDelivered(dest, files, disk, order, 0, into, intoDisk);
  }

  lemma MergeUpdate<K, V>(a: map<K, V>, b: map<K, V>, k: K, v: V)
    ensures (a + b)[k := v] == a + b[k := v]
  {
  }
}
