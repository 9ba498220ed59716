/** The EXIF handler's tag loop: every (tag id, value) pair the image reports is stored
    in a dictionary under the tag's name from the imaging library's `TAGS` table, or
    under the raw id when the table does not know it, with byte-string values decoded to
    text. The dictionary is a Python `dict`: it keeps its keys in insertion order, and a
    later pair with a name already present replaces the value in place. */
module ExifTags {
  import opened Wrappers

  /** A key of the output dictionary. */
  datatype TagName = Named(name: string) | Numeric(id: int)

  /** A tag value as the imaging library hands it over: a raw byte string, text, or any
      other value (a number, a tuple, a rational), carried by its representation. */
  datatype TagValue = Bytes(data: seq<bv8>) | Text(text: string) | Other(repr: string)

  /** A dictionary: its entries in insertion order. */
  type Dict = seq<(TagName, TagValue)>

  function Keys(d: Dict): (ks: seq<TagName>)
    ensures |ks| == |d|
    decreases |d|
  {
    if |d| == 0 then [] else [d[0].0] + Keys(d[1..])
  }

  /** No key occurs twice, as in every Python dictionary. */
  predicate Distinct(d: Dict)
    decreases |d|
  {
    |d| == 0 || (d[0].0 !in Keys(d[1..]) && Distinct(d[1..]))
  }

  /** `d.get(k)`. */
  function Lookup(d: Dict, k: TagName): Option<TagValue>
    decreases |d|
  {
    if |d| == 0 then None
    else if d[0].0 == k then Some(d[0].1)
    else Lookup(d[1..], k)
  }

  /** `d[k] = v`. */
  function Put(d: Dict, k: TagName, v: TagValue): (r: Dict)
    ensures |d| <= |r| <= |d| + 1
    decreases |d|
  {
    if |d| == 0 then [(k, v)]
    else if d[0].0 == k then [(k, v)] + d[1..]
    else [d[0]] + Put(d[1..], k, v)
  }

  /** A key already present keeps its place; a new key goes to the end. */
  lemma {:induction false} PutKeys(d: Dict, k: TagName, v: TagValue)
    ensures Keys(Put(d, k, v)) == if k in Keys(d) then Keys(d) else Keys(d) + [k]
    decreases |d|
  {
    if |d| > 0 && d[0].0 != k {
      PutKeys(d[1..], k, v);
      assert Keys(d) == [d[0].0] + Keys(d[1..]);
    }
  }

  /** Storing a key keeps the keys distinct. */
  lemma {:induction false} PutDistinct(d: Dict, k: TagName, v: TagValue)
    requires Distinct(d)
    ensures Distinct(Put(d, k, v))
    decreases |d|
  {
    if |d| > 0 && d[0].0 != k {
      PutDistinct(d[1..], k, v);
      PutKeys(d[1..], k, v);
    }
  }

  /** The stored value is what a lookup of its key then gives. */
  lemma {:induction false} PutLookup(d: Dict, k: TagName, v: TagValue)
    ensures Lookup(Put(d, k, v), k) == Some(v)
    decreases |d|
  {
    if |d| > 0 && d[0].0 != k {
      PutLookup(d[1..], k, v);
    }
  }

  /** `d[k] = v` leaves every other key's value alone. */
  lemma {:induction false} PutOther(d: Dict, k: TagName, v: TagValue, other: TagName)
    requires other != k
    ensures Lookup(Put(d, k, v), other) == Lookup(d, other)
    decreases |d|
  {
    if |d| > 0 && d[0].0 != k {
      PutOther(d[1..], k, v, other);
    }
  }

  /** `TAGS.get(tag_id, tag_id)`. */
  function TagOf(id: int, tags: map<int, string>): (r: TagName)
    ensures r.Named? <==> id in tags
    ensures r.Named? ==> r.name == tags[id]
    ensures r.Numeric? ==> r.id == id
  {
    if id in tags then Named(tags[id]) else Numeric(id)
  }

  /** The stored value: byte strings go through `decode`, the library's UTF-8 decoding
      with replacement of invalid bytes, which cannot fail; anything else is kept. */
  function Normalize(v: TagValue, decode: seq<bv8> -> string): (r: TagValue)
    ensures !r.Bytes?
    ensures v.Bytes? ==> r == Text(decode(v.data))
    ensures !v.Bytes? ==> r == v
  {
    if v.Bytes? then Text(decode(v.data)) else v
  }

  /** The dictionary after the loop has seen `entries`, in order. */
  function Renamed(entries: seq<(int, TagValue)>, tags: map<int, string>, decode: seq<bv8> -> string): (r: Dict)
    ensures |r| <= |entries|
    ensures |entries| > 0 ==> |r| > 0
    decreases |entries|
  {
    if |entries| == 0 then []
    else
      var last := entries[|entries| - 1];
      Put(Renamed(entries[..|entries| - 1], tags, decode), TagOf(last.0, tags), Normalize(last.1, decode))
  }

  /** The loop of `exif_handler` that fills `exif_dict` from the image's tags. */
  method RenameTags(entries: seq<(int, TagValue)>, tags: map<int, string>, decode: seq<bv8> -> string)
    returns (exifDict: Dict)
    ensures exifDict == Renamed(entries, tags, decode)
  {
    exifDict := [];
    var i := 0;
    while i < |entries|
      invariant 0 <= i <= |entries|
      invariant exifDict == Renamed(entries[..i], tags, decode)
    {
      var (id, value) := entries[i];
      var tag := TagOf(id, tags);
      if value.Bytes? {
        value := Text(decode(value.data));
      }
      assert entries[..i + 1][..i] == entries[..i];
      exifDict := Put(exifDict, tag, value);
      i := i + 1;
    }
    assert entries[..|entries|] == entries;
  }

  /** The dictionary never holds a key twice. */
  lemma {:induction false} RenamedDistinct(entries: seq<(int, TagValue)>, tags: map<int, string>, decode: seq<bv8> -> string)
    ensures Distinct(Renamed(entries, tags, decode))
    decreases |entries|
  {
    if |entries| > 0 {
      var n := |entries| - 1;
      RenamedDistinct(entries[..n], tags, decode);
      PutDistinct(Renamed(entries[..n], tags, decode), TagOf(entries[n].0, tags), Normalize(entries[n].1, decode));
    }
  }

  /** The name each reported pair is stored under, in the order the pairs come. */
  function TagNames(entries: seq<(int, TagValue)>, tags: map<int, string>): seq<TagName> {
    seq(|entries|, i requires 0 <= i < |entries| => TagOf(entries[i].0, tags))
  }

  /** The names of `names` that do not occur earlier in it, in order. */
  function FirstOccurrences(names: seq<TagName>): seq<TagName>
    decreases |names|
  {
    if |names| == 0 then []
    else
      var n := |names| - 1;
      FirstOccurrences(names[..n]) + if names[n] in names[..n] then [] else [names[n]]
  }

  /** Keeping first occurrences drops repetitions only: every name is still there. */
  lemma {:induction false} FirstOccurrencesHas(names: seq<TagName>, k: TagName)
    ensures k in FirstOccurrences(names) <==> k in names
    decreases |names|
  {
    if |names| > 0 {
      var n := |names| - 1;
      FirstOccurrencesHas(names[..n], k);
      assert names == names[..n] + [names[n]];
    }
  }

  /** The dictionary's keys come in the order their names were first reported: a
      repeated name keeps the place of its first occurrence. */
  lemma {:induction false} RenamedKeyOrder(entries: seq<(int, TagValue)>, tags: map<int, string>, decode: seq<bv8> -> string)
    ensures Keys(Renamed(entries, tags, decode)) == FirstOccurrences(TagNames(entries, tags))
    decreases |entries|
  {
    if |entries| > 0 {
      var n := |entries| - 1;
      var prefix := entries[..n];
      var names := TagNames(entries, tags);
      var earlier := Renamed(prefix, tags, decode);
      var last := TagOf(entries[n].0, tags);
      var v := Normalize(entries[n].1, decode);
      assert Renamed(entries, tags, decode) == Put(earlier, last, v);
      assert TagNames(prefix, tags) == names[..n];
      RenamedKeyOrder(prefix, tags, decode);
      PutKeys(earlier, last, v);
      FirstOccurrencesHas(names[..n], last);
    }
  }

  /** A name occurs among the names of some pairs exactly when one of the pairs carries
      it. */
  lemma RepeatedName(entries: seq<(int, TagValue)>, tags: map<int, string>, k: TagName)
    ensures k in TagNames(entries, tags) <==> exists i :: 0 <= i < |entries| && TagOf(entries[i].0, tags) == k
  {
    var names := TagNames(entries, tags);
    if k in names {
      var i :| 0 <= i < |names| && names[i] == k;
      assert TagOf(entries[i].0, tags) == k;
    }
    if exists i :: 0 <= i < |entries| && TagOf(entries[i].0, tags) == k {
      var i :| 0 <= i < |entries| && TagOf(entries[i].0, tags) == k;
      assert names[i] == k;
    }
  }

  /** A name is a key of the dictionary exactly when some reported tag carries it. */
  lemma RenamedHasKey(entries: seq<(int, TagValue)>, tags: map<int, string>, decode: seq<bv8> -> string, k: TagName)
    ensures k in Keys(Renamed(entries, tags, decode))
        <==> exists i :: 0 <= i < |entries| && TagOf(entries[i].0, tags) == k
  {
    RenamedKeyOrder(entries, tags, decode);
    FirstOccurrencesHas(TagNames(entries, tags), k);
    RepeatedName(entries, tags, k);
  }

  /** A later pair overwrites an earlier one under the same name: the value stored
      under a name is the normalized value of the last pair with that name. */
  lemma {:induction false} RenamedLastWins(entries: seq<(int, TagValue)>, tags: map<int, string>, decode: seq<bv8> -> string, i: nat)
    requires i < |entries|
    requires forall j :: i < j < |entries| ==> TagOf(entries[j].0, tags) != TagOf(entries[i].0, tags)
    ensures Lookup(Renamed(entries, tags, decode), TagOf(entries[i].0, tags)) == Some(Normalize(entries[i].1, decode))
    decreases |entries|
  {
    var n := |entries| - 1;
    var prefix := entries[..n];
    var k := TagOf(entries[i].0, tags);
    var earlier := Renamed(prefix, tags, decode);
    var last := TagOf(entries[n].0, tags);
    assert Renamed(entries, tags, decode) == Put(earlier, last, Normalize(entries[n].1, decode));
    if i == n {
      PutLookup(earlier, last, Normalize(entries[n].1, decode));
    } else {
      assert prefix[i] == entries[i];
      assert forall j :: i < j < |prefix| ==> prefix[j] == entries[j];
      RenamedLastWins(prefix, tags, decode, i);
      assert last != k;
      PutOther(earlier, last, Normalize(entries[n].1, decode), k);
    }
  }

  /** No name is stored that no reported tag carries. */
  lemma {:induction false} RenamedAbsent(entries: seq<(int, TagValue)>, tags: map<int, string>, decode: seq<bv8> -> string, k: TagName)
    requires forall i :: 0 <= i < |entries| ==> TagOf(entries[i].0, tags) != k
    ensures Lookup(Renamed(entries, tags, decode), k) == None
    decreases |entries|
  {
    if |entries| > 0 {
      var n := |entries| - 1;
      var prefix := entries[..n];
      forall i | 0 <= i < |prefix| ensures TagOf(prefix[i].0, tags) != k {
        assert prefix[i] == entries[i];
      }
      RenamedAbsent(prefix, tags, decode, k);
      var earlier := Renamed(prefix, tags, decode);
      var last := TagOf(entries[n].0, tags);
      assert Renamed(entries, tags, decode) == Put(earlier, last, Normalize(entries[n].1, decode));
      assert last != k;
      PutOther(earlier, last, Normalize(entries[n].1, decode), k);
    }
  }
}
