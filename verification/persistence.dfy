/**
 * Persistence of the annotation list in a key/value store
 * (`localStorage`).  JSON text is abstracted: a stored value is the
 * outcome `JSON.parse` would produce from it.
 */
module Persistence {

  import opened Wrappers
  import opened Records

  /** One element of a parsed JSON array: an object, or anything else (number, string, null, ...). */
  datatype JsonItem = Object(record: Record) | Scalar

  /**
   * What `localStorage.getItem(key)` followed by `JSON.parse` yields:
   * the empty string, text `JSON.parse` rejects, a non-array value, or
   * an array.  A key that is not stored at all is a key missing from the
   * storage map.
   */
  datatype Payload = Blank | Unparseable | NonArray | ArrayOf(items: seq<JsonItem>)

  type Storage = map<string, Payload>

  const KeyPrefix: string := "pdfsign:"

  /** `getAttribute('src') || 'inline'`: a missing or empty attribute names the inline document. */
  function SourceName(src: Option<string>): (name: string)
    ensures name != ""
    ensures src.Some? && src.value != "" ==> name == src.value
    ensures src.None? || src.value == "" ==> name == "inline"
  {
    if src.None? || src.value == "" then "inline" else src.value
  }

  /** `_storageKey()`: the prefix followed by the encoded source name; `encode` stands for `encodeURIComponent`. */
  function StorageKey(src: Option<string>, encode: string -> string): (key: string)
    ensures |key| >= |KeyPrefix| && key[..|KeyPrefix|] == KeyPrefix
    ensures key[|KeyPrefix|..] == encode(SourceName(src))
  {
    KeyPrefix + encode(SourceName(src))
  }

  ghost predicate Injective(encode: string -> string) {
    forall a, b :: encode(a) == encode(b) ==> a == b
  }

  /** With an injective encoding, documents with different source names never share a slot. */
  lemma DistinctSourcesDistinctKeys(a: Option<string>, b: Option<string>, encode: string -> string)
    requires Injective(encode)
    requires SourceName(a) != SourceName(b)
    ensures StorageKey(a, encode) != StorageKey(b, encode)
  {
    assert encode(SourceName(a)) != encode(SourceName(b));
    assert StorageKey(a, encode)[|KeyPrefix|..] != StorageKey(b, encode)[|KeyPrefix|..];
  }

  /** A document without a `src`, one with an empty `src` and one whose `src` is literally `inline` share a slot. */
  lemma InlineSourcesShareKey(encode: string -> string)
    ensures StorageKey(None, encode) == StorageKey(Some(""), encode)
    ensures StorageKey(None, encode) == StorageKey(Some("inline"), encode)
  {
  }

  /** `JSON.stringify(this._positions)`, as `JSON.parse` reads it back: one object per record. */
  function Snapshot(rs: seq<Record>): (items: seq<JsonItem>)
    ensures |items| == |rs|
    ensures forall k | 0 <= k < |rs| :: items[k] == Object(rs[k])
  {
    seq(|rs|, k requires 0 <= k < |rs| => Object(rs[k]))
  }

  /**
   * Number of leading objects of a parsed array: the replay assigns
   * `p.id` on each element, which throws on the first non-object in
   * strict-mode code and ends the replay there.
   */
  function LeadingObjects(items: seq<JsonItem>): (n: nat)
    ensures n <= |items|
    ensures forall k | 0 <= k < n :: items[k].Object?
    ensures n < |items| ==> items[n].Scalar?
    decreases |items|
  {
    if |items| == 0 || items[0].Scalar? then 0
    else
      var n := LeadingObjects(items[1..]);
      assert forall k | 1 <= k < n + 1 :: items[k] == items[1..][k - 1];
      n + 1
  }

  /** The records of the first `n` items, with identifiers `first, first + 1, ...` in array order. */
  function Reissue(items: seq<JsonItem>, n: nat, first: nat): (rs: seq<Record>)
    requires n <= |items| && forall k | 0 <= k < n :: items[k].Object?
    ensures |rs| == n
    ensures forall k | 0 <= k < n :: rs[k] == items[k].record.(id := first + k)
  {
    seq(n, k requires 0 <= k < n => items[k].record.(id := first + k))
  }

  /** Reissuing a non-empty prefix: the head gets `first`, the rest are numbered from `first + 1`. */
  lemma ReissueCons(items: seq<JsonItem>, n: nat, first: nat)
    requires 0 < n <= |items| && forall k | 0 <= k < n :: items[k].Object?
    ensures Reissue(items, n, first) == [items[0].record.(id := first)] + Reissue(items[1..], n - 1, first + 1)
  {
    assert forall k | 1 <= k < n :: items[1..][k - 1] == items[k];
  }

  /** Writing a list and reading it back yields an all-object array of the same records. */
  lemma SnapshotReadsBack(rs: seq<Record>, first: nat)
    ensures LeadingObjects(Snapshot(rs)) == |rs|
    ensures forall k | 0 <= k < |rs| ::
              Reissue(Snapshot(rs), |rs|, first)[k] == rs[k].(id := first + k)
  {
  }
}
