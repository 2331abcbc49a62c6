/** The content-addressed blob store behind the `files` table: which content keys the rows
    reference, what a write stores, and when a delete may drop a blob. */
module Blobs {
  import opened Schema

  newtype byte = b: int | 0 <= b < 256

  /** What `writeFile` accepts: a text, hashed and stored as its UTF-8 encoding, or a blob of
      bytes. */
  datatype Content = Text(text: string) | Bytes(bytes: seq<byte>)

  /** The UTF-8 encoding of one character: one byte below 0x80, then two, three or four. */
  function Utf8Char(c: char): (r: seq<byte>)
    ensures 1 <= |r| <= 4
    ensures (c as int < 0x80) <==> |r| == 1
    ensures |r| == 1 ==> r[0] as int == c as int
    ensures |r| > 1 ==> r[0] >= 0xC0 && forall k :: 1 <= k < |r| ==> 0x80 <= r[k] < 0xC0
  {
    var n := c as int;
    if n < 0x80 then [n as byte]
    else if n < 0x800 then [(0xC0 + n / 0x40) as byte, (0x80 + n % 0x40) as byte]
    else if n < 0x1_0000 then
      [(0xE0 + n / 0x1000) as byte, (0x80 + n / 0x40 % 0x40) as byte, (0x80 + n % 0x40) as byte]
    else
      [(0xF0 + n / 0x4_0000) as byte, (0x80 + n / 0x1000 % 0x40) as byte,
       (0x80 + n / 0x40 % 0x40) as byte, (0x80 + n % 0x40) as byte]
  }

  function Utf8(s: string): seq<byte>
    decreases |s|
  {
    if |s| == 0 then [] else Utf8Char(s[0]) + Utf8(s[1..])
  }

  /** Encoding a text piece by piece gives the encoding of the whole. */
  lemma {:induction false} Utf8Concat(a: string, b: string)
    ensures Utf8(a + b) == Utf8(a) + Utf8(b)
    decreases |a|
  {
    if |a| == 0 {
      assert a + b == b;
    } else {
      assert (a + b)[0] == a[0] && (a + b)[1..] == a[1..] + b;
      Utf8Concat(a[1..], b);
    }
  }

  /** Between one and four bytes per character; an all-ASCII text is its own encoding. */
  lemma {:induction false} Utf8Length(s: string)
    ensures |s| <= |Utf8(s)| <= 4 * |s|
    ensures (forall k :: 0 <= k < |s| ==> s[k] as int < 0x80) ==>
      |Utf8(s)| == |s| && forall k :: 0 <= k < |s| ==> Utf8(s)[k] as int == s[k] as int
    decreases |s|
  {
    if |s| != 0 {
      Utf8Length(s[1..]);
      if forall k :: 0 <= k < |s| ==> s[k] as int < 0x80 {
        assert forall k :: 0 <= k < |s[1..]| ==> s[1..][k] as int < 0x80 by {
          forall k | 0 <= k < |s[1..]| ensures s[1..][k] as int < 0x80 {
            assert s[1..][k] == s[k + 1];
          }
        }
        forall k | 0 <= k < |s| ensures Utf8(s)[k] as int == s[k] as int {
          if k > 0 {
            assert Utf8(s)[k] == Utf8(s[1..])[k - 1] && s[k] == s[1..][k - 1];
          }
        }
      }
    }
  }

  /** The bytes the hasher digests and the blob store keeps for a write. */
  function ContentBytes(c: Content): seq<byte>
  {
    match c
    case Text(t) => Utf8(t)
    case Bytes(b) => b
  }

  /** The content keys the file rows reference. */
  function Refs(files: map<int, FileRow>): (r: set<string>)
    ensures forall f :: f in files ==> files[f].uri in r
    ensures forall u :: u in r ==> exists f :: f in files && files[f].uri == u
  {
    set f | f in files :: files[f].uri
  }

  /** Every referenced content key has a blob. */
  predicate Stored(files: map<int, FileRow>, blobs: map<string, seq<byte>>)
  {
    forall f :: f in files ==> files[f].uri in blobs
  }

  /** Every blob is referenced by some row. */
  predicate NoOrphans(files: map<int, FileRow>, blobs: map<string, seq<byte>>)
  {
    forall u :: u in blobs ==> u in Refs(files)
  }

  /** Every blob is kept under the digest of its bytes. */
  predicate Addressed(blobs: map<string, seq<byte>>, hash: seq<byte> -> string)
  {
    forall u :: u in blobs ==> hash(blobs[u]) == u
  }

  /** Distinct contents get distinct digests, the assumption the content addressing rests on:
      some decoding recovers every content from its digest. */
  ghost predicate Injective(hash: seq<byte> -> string)
  {
    exists decode: string -> seq<byte> :: Decodes(hash, decode)
  }

  ghost predicate Decodes(hash: seq<byte> -> string, decode: string -> seq<byte>)
  {
    forall a :: decode(hash(a)) == a
  }

  /** Rows that stay under their ids with their content keys, whatever else is added or
      rewritten, keep every blob referenced: copying and moving rows leaves no orphan. */
  lemma KeptRefsNoOrphans(before: map<int, FileRow>, after: map<int, FileRow>, blobs: map<string, seq<byte>>)
    requires forall f :: f in before ==> f in after && after[f].uri == before[f].uri
    ensures Refs(before) <= Refs(after)
    ensures NoOrphans(before, blobs) ==> NoOrphans(after, blobs)
  {
    forall u | u in Refs(before) ensures u in Refs(after) {
      var f :| f in before && before[f].uri == u;
      assert after[f].uri == u;
    }
  }

  /** A row added under a fresh id keeps every blob referenced. */
  lemma InsertKeepsNoOrphans(files: map<int, FileRow>, id: int, row: FileRow, blobs: map<string, seq<byte>>)
    requires id !in files
    ensures NoOrphans(files, blobs) ==> NoOrphans(files[id := row], blobs)
  {
    KeptRefsNoOrphans(files, files[id := row], blobs);
  }

  /** The blob store after rows `before` became rows `after`: the blobs whose key lost its last
      reference are gone. */
  function Release(blobs: map<string, seq<byte>>, before: map<int, FileRow>, after: map<int, FileRow>): (r: map<string, seq<byte>>)
    ensures forall u :: u in r <==> u in blobs && (u in Refs(after) || u !in Refs(before))
    ensures forall u :: u in r ==> r[u] == blobs[u]
  {
    blobs - (Refs(before) - Refs(after))
  }

  /** The rows that survive keep their blobs, and a store with no orphans keeps none. */
  lemma ReleaseKeepsInvariants(blobs: map<string, seq<byte>>, before: map<int, FileRow>, after: map<int, FileRow>, hash: seq<byte> -> string)
    requires Stored(before, blobs) && Addressed(blobs, hash)
    requires forall f :: f in after ==> f in before && after[f] == before[f]
    ensures Stored(after, Release(blobs, before, after))
    ensures Addressed(Release(blobs, before, after), hash)
    ensures NoOrphans(before, blobs) ==> NoOrphans(after, Release(blobs, before, after))
  {
    var r := Release(blobs, before, after);
    forall f | f in after ensures after[f].uri in r {
      assert after[f].uri in Refs(after);
    }
  }

  /** Releasing step by step is releasing once: a sequence of deletions drops exactly the blobs
      that lost their last reference overall. */
  lemma ReleaseComposes(blobs: map<string, seq<byte>>, a: map<int, FileRow>, b: map<int, FileRow>, c: map<int, FileRow>)
    requires Refs(b) <= Refs(a) && Refs(c) <= Refs(b)
    ensures Release(Release(blobs, a, b), b, c) == Release(blobs, a, c)
  {
    var lhs := Release(Release(blobs, a, b), b, c);
    var rhs := Release(blobs, a, c);
    assert forall u :: u in lhs <==> u in rhs;
  }

  /** Another row shares the content key of row `id`. */
  predicate Shared(files: map<int, FileRow>, id: int)
    requires id in files
  {
    exists g :: g in files && g != id && files[g].uri == files[id].uri
  }

  /** Removing one row drops its blob exactly when no other row shares its key. */
  lemma ReleaseOne(blobs: map<string, seq<byte>>, files: map<int, FileRow>, id: int)
    requires id in files
    ensures Release(blobs, files, files - {id}) ==
      if Shared(files, id) then blobs else blobs - {files[id].uri}
  {
    var u := files[id].uri;
    var r := Release(blobs, files, files - {id});
    if Shared(files, id) {
      var g :| g in files && g != id && files[g].uri == u;
      assert (files - {id})[g].uri == u;
      forall v | v in blobs ensures v in r {
        if v in Refs(files) && v != u {
          var h :| h in files && files[h].uri == v;
          assert h != id && (files - {id})[h].uri == v;
        }
      }
    } else {
      forall v | v in blobs && v != u ensures v in r {
        if v in Refs(files) {
          var h :| h in files && files[h].uri == v;
          assert h != id && (files - {id})[h].uri == v;
        }
      }
      assert u !in Refs(files - {id});
    }
  }

  /** `writeFile`'s store step: the blob is written only when no row of any owner already
      references its key. */
  function StoreBlob(blobs: map<string, seq<byte>>, files: map<int, FileRow>, uri: string, bytes: seq<byte>): (r: map<string, seq<byte>>)
    ensures forall u :: u in blobs ==> u in r && (u != uri ==> r[u] == blobs[u])
    ensures forall u :: u in r ==> u in blobs || u == uri
    ensures uri !in Refs(files) ==> uri in r && r[uri] == bytes
  {
    if uri in Refs(files) then blobs else blobs[uri := bytes]
  }

  /** The store keeps its invariants, and under the key the write used it holds exactly the
      written bytes, whether or not a blob was already there. */
  lemma StoreBlobSound(blobs: map<string, seq<byte>>, files: map<int, FileRow>, bytes: seq<byte>, hash: seq<byte> -> string)
    requires Stored(files, blobs) && Addressed(blobs, hash) && Injective(hash)
    ensures var r := StoreBlob(blobs, files, hash(bytes), bytes);
      && Stored(files, r) && Addressed(r, hash)
      && r[hash(bytes)] == bytes
  {
    var decode: string -> seq<byte> :| Decodes(hash, decode);
    var u := hash(bytes);
    if u in blobs {
      assert decode(hash(blobs[u])) == blobs[u] && decode(hash(bytes)) == bytes;
    }
  }

  /** A write that stores its blob and then inserts its row under a fresh id leaves no orphan
      behind. */
  lemma StoreThenInsertNoOrphans(blobs: map<string, seq<byte>>, files: map<int, FileRow>, id: int, row: FileRow, bytes: seq<byte>)
    requires NoOrphans(files, blobs) && id !in files
    ensures NoOrphans(files[id := row], StoreBlob(blobs, files, row.uri, bytes))
  {
    var after := files[id := row];
    assert id in after && after[id].uri == row.uri;
    forall u | u in blobs ensures u in Refs(after) {
      var f :| f in files && files[f].uri == u;
      assert f in after && after[f].uri == u;
    }
  }

  /** A write whose row is then refused leaves its blob orphaned when no row referenced the key. */
  lemma StoreWithoutInsertOrphans(blobs: map<string, seq<byte>>, files: map<int, FileRow>, uri: string, bytes: seq<byte>)
    requires uri !in Refs(files)
    ensures !NoOrphans(files, StoreBlob(blobs, files, uri, bytes))
  {
    assert uri in StoreBlob(blobs, files, uri, bytes);
  }

  /** `deleteFile`'s query: the rows, of any owner, referencing key `uri`. */
  function Identical(files: map<int, FileRow>, uri: string): (r: set<int>)
    ensures forall g :: g in r <==> g in files && files[g].uri == uri
  {
    set g | g in files && files[g].uri == uri
  }

  /** Counting exactly one identical row means no other row shares the key. */
  lemma SoleReference(files: map<int, FileRow>, id: int)
    requires id in files
    ensures |Identical(files, files[id].uri)| == 1 <==> !Shared(files, id)
  {
    var s := Identical(files, files[id].uri);
    if Shared(files, id) {
      var g :| g in files && g != id && files[g].uri == files[id].uri;
      assert g in s - {id};
      assert |s - {id}| == |s| - 1;
    } else {
      assert forall g :: g in s <==> g == id;
      assert s == {id};
    }
  }
}
