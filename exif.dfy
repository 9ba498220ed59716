/** The EXIF handler: for every readable storage record, open the object, collect its
    EXIF tags into a dictionary, and write that dictionary as JSON next to it under a key
    derived from the source key. */
module ExifLambda {
  import opened Wrappers
  import opened PosixPath
  import opened ExifTags
  import Pipeline

  // ---------------------------------------------------------------------------------
  // Destination key

  /** Where `s.rsplit('.', 1)` cuts: the index of the last '.' in `s`. */
  function LastDot(s: string): (r: Option<nat>)
    ensures r.None? <==> '.' !in s
    ensures r.Some? ==> r.value < |s| && s[r.value] == '.' && '.' !in s[r.value + 1..]
    decreases |s|
  {
    if |s| == 0 then None
    else if s[|s| - 1] == '.' then Some(|s| - 1)
    else
      var r := LastDot(s[..|s| - 1]);
      assert s == s[..|s| - 1] + [s[|s| - 1]];
      if r.Some? then
        assert s[r.value + 1..] == s[..|s| - 1][r.value + 1..] + [s[|s| - 1]];
        r
      else r
  }

  /** A '.' with none after it is the last one. */
  lemma LastDotAt(s: string, i: nat)
    requires i < |s| && s[i] == '.' && '.' !in s[i + 1..]
    ensures LastDot(s) == Some(i)
  {
    assert s[i] in s;
  }

  /** `s.rsplit('.', 1)[0]`: everything before the last '.', or all of `s` when it has
      none. */
  function BeforeLastDot(s: string): (r: string)
    ensures r <= s
    ensures '.' !in s ==> r == s
    ensures '.' in s ==> |r| < |s| && s[|r|] == '.' && '.' !in s[|r| + 1..]
  {
    match LastDot(s)
    case None => s
    case Some(i) => s[..i]
  }

  /** The cut falls in the second half when that holds a '.', else in the first half,
      else nowhere. */
  lemma BeforeLastDotConcat(a: string, b: string)
    ensures BeforeLastDot(a + b)
         == if '.' in b then a + BeforeLastDot(b)
            else if '.' in a then BeforeLastDot(a)
            else a + b
  {
    var s := a + b;
    if '.' in b {
      var i := LastDot(b).value;
      assert s[|a| + i + 1..] == b[i + 1..];
      LastDotAt(s, |a| + i);
      assert s[..|a| + i] == a + b[..i];
    } else if '.' in a {
      var i := LastDot(a).value;
      assert s[i + 1..] == a[i + 1..] + b;
      LastDotAt(s, i);
      assert s[..i] == a[..i];
    }
  }

  /** `str(Path('exif', *parts[1:]))` when the key has more than one part, else
      `str(Path('exif', name))`; an empty name adds no component. */
  function ExifPath(p: PurePath): (r: string)
    ensures |r| >= 4 && r[..4] == "exif"
  {
    if PartCount(p) > 1 then
      JoinCons("exif", DropFirstPart(p));
      Join(["exif"] + DropFirstPart(p))
    else if Name(p) == "" then "exif"
    else Join(["exif", Name(p)])
  }

  /** "exif" itself holds no '.', so the cut never falls inside it. */
  lemma CutAfterExif(rest: string)
    ensures "exif" <= BeforeLastDot("exif" + rest)
  {
    DotAfter("exif", rest);
    BeforeLastDotConcat("exif", rest);
  }

  /** The key the EXIF JSON is written under: the path under "exif" cut at its last
      '.', with ".json" appended. */
  function ExifKey(key: string): (r: string)
    ensures |r| >= 9 && r[..4] == "exif" && r[|r| - 5..] == ".json"
  {
    var base := ExifPath(Parse(key));
    assert "exif" + base[4..] == base;
    CutAfterExif(base[4..]);
    BeforeLastDot(base) + ".json"
  }

  /** A key of two or more parts loses its first part (its first directory, or the
      root of an absolute key), the rest goes under "exif/", and the cut is made in
      that whole string. */
  lemma ExifKeyNested(key: string)
    requires PartCount(Parse(key)) >= 2
    ensures ExifKey(key) == BeforeLastDot("exif/" + Join(DropFirstPart(Parse(key)))) + ".json"
  {
    var p := Parse(key);
    ExifPathNested(p);
    ExifKeyOfPath(key, p);
  }

  /** A key of one segment goes straight under "exif/", its extension replaced. */
  lemma ExifKeyTopLevel(key: string, name: string)
    requires Parse(key) == PurePath(false, [name])
    ensures ExifKey(key) == "exif/" + BeforeLastDot(name) + ".json"
  {
    var p := PurePath(false, [name]);
    assert ExifPath(p) == "exif/" + name by {
      assert name == p.tail[0] && IsSegment(name);
      assert Join(["exif", name]) == "exif/" + name;
    }
    ExifKeyOfPath(key, p);
    BeforeLastDotConcat("exif/", name);
  }

  lemma ExifPathNested(p: PurePath)
    requires PartCount(p) >= 2
    ensures ExifPath(p) == "exif/" + Join(DropFirstPart(p))
  {
    JoinCons("exif", DropFirstPart(p));
  }

  lemma ExifKeyOfPath(key: string, p: PurePath)
    requires Parse(key) == p
    ensures ExifKey(key) == BeforeLastDot(ExifPath(p)) + ".json"
  {
  }

  /** A relative key of two or more segments loses its first one. */
  lemma ExifKeyOfParts(key: string, first: string, rest: seq<string>)
    requires |rest| >= 1
    requires Parse(key) == PurePath(false, [first] + rest)
    ensures ExifKey(key) == BeforeLastDot("exif/" + Join(rest)) + ".json"
  {
    ExifKeyNested(key);
    assert ([first] + rest)[1..] == rest;
  }

  /** The first directory of a key does not matter: two keys that differ only there
      are written to the same place. */
  lemma ExifKeyIgnoresFirstDirectory(key1: string, key2: string, d1: string, d2: string, rest: seq<string>)
    requires |rest| >= 1
    requires Parse(key1) == PurePath(false, [d1] + rest)
    requires Parse(key2) == PurePath(false, [d2] + rest)
    ensures ExifKey(key1) == ExifKey(key2)
  {
    ExifKeyOfParts(key1, d1, rest);
    ExifKeyOfParts(key2, d2, rest);
  }

  /** When the file name has an extension, only that extension is replaced and every
      directory after the first is kept. */
  lemma ExifKeyReplacesExtension(key: string, first: string, dirs: seq<string>, name: string)
    requires Parse(key) == PurePath(false, [first] + dirs + [name])
    requires '.' in name
    ensures ExifKey(key) == "exif/" + Join(dirs + [BeforeLastDot(name)]) + ".json"
  {
    assert [first] + dirs + [name] == [first] + (dirs + [name]);
    ExifKeyOfParts(key, first, dirs + [name]);
    CutInName(dirs, name);
  }

  lemma CutInName(dirs: seq<string>, name: string)
    requires '.' in name
    ensures BeforeLastDot("exif/" + Join(dirs + [name])) == "exif/" + Join(dirs + [BeforeLastDot(name)])
  {
    JoinSnoc(dirs, name);
    JoinSnoc(dirs, BeforeLastDot(name));
    var a := if |dirs| == 0 then "exif/" else "exif/" + Join(dirs) + "/";
    assert "exif/" + Join(dirs + [name]) == a + name;
    BeforeLastDotConcat(a, name);
  }

  /** When the file name has no '.', ".json" is appended to the whole path, unless a
      directory kept in the path holds a '.': then the cut falls inside that directory
      and the file name is lost. */
  lemma ExifKeyWithoutExtension(key: string, first: string, dirs: seq<string>, name: string)
    requires Parse(key) == PurePath(false, [first] + dirs + [name])
    requires '.' !in name
    ensures ExifKey(key)
         == if '.' in Join(dirs) then BeforeLastDot("exif/" + Join(dirs)) + ".json"
            else "exif/" + Join(dirs + [name]) + ".json"
  {
    assert [first] + dirs + [name] == [first] + (dirs + [name]);
    ExifKeyOfParts(key, first, dirs + [name]);
    CutBeforeName(dirs, name);
  }

  lemma CutBeforeName(dirs: seq<string>, name: string)
    requires '.' !in name
    ensures BeforeLastDot("exif/" + Join(dirs + [name]))
         == if '.' in Join(dirs) then BeforeLastDot("exif/" + Join(dirs))
            else "exif/" + Join(dirs + [name])
  {
    JoinSnoc(dirs, name);
    if |dirs| == 0 {
      BeforeLastDotConcat("exif/", name);
    } else {
      var a := "exif/" + Join(dirs);
      assert "exif/" + Join(dirs + [name]) == a + ("/" + name);
      DotAfter("/", name);
      DotAfter("exif/", Join(dirs));
      BeforeLastDotConcat(a, "/" + name);
    }
  }

  /** A '.' in a string after a dot-free prefix lies in the rest. */
  lemma DotAfter(prefix: string, s: string)
    requires '.' !in prefix
    ensures '.' in prefix + s <==> '.' in s
  {
  }

  /** Worked examples: a nested key keeps its directories after the first, and a key
      without directories goes straight under "exif/". (Each example spells out its
      literal strings in a lemma of its own, which keeps the solver from evaluating
      every string function on every literal at once.) */
  lemma ExifKeyExampleNested(key: string)
    requires key == "uploads/2024/photo.jpg"
    ensures ExifKey(key) == "exif/2024/photo.json"
  {
    var segs := ["uploads", "2024", "photo.jpg"];
    assert Parse(key) == PurePath(false, segs) by {
      ParseSegments(segs);
      assert Join(segs) == key;
    }
    assert segs == ["uploads"] + ["2024"] + ["photo.jpg"];
    NestedSpelling("2024", "photo.jpg");
    ExifKeyReplacesExtension(key, "uploads", ["2024"], "photo.jpg");
  }

  lemma NestedSpelling(dir: string, name: string)
    requires dir == "2024" && name == "photo.jpg"
    ensures '.' in name
    ensures "exif/" + Join([dir] + [BeforeLastDot(name)]) + ".json" == "exif/2024/photo.json"
  {
    assert name[5] == '.';
    LastDotAt(name, 5);
  }

  lemma ExifKeyExampleTopLevel(key: string)
    requires key == "photo.jpg"
    ensures ExifKey(key) == "exif/photo.json"
  {
    assert Parse(key) == PurePath(false, [key]) by {
      ParseSegments([key]);
    }
    TopLevelSpelling("photo.jpg");
    ExifKeyTopLevel(key, "photo.jpg");
  }

  lemma TopLevelSpelling(name: string)
    requires name == "photo.jpg"
    ensures "exif/" + BeforeLastDot(name) + ".json" == "exif/photo.json"
  {
    assert name[5] == '.';
    LastDotAt(name, 5);
  }

  /** Only the last extension is replaced. */
  lemma ExifKeyExampleDoubleExtension(key: string)
    requires key == "a.b/c.tar.gz"
    ensures ExifKey(key) == "exif/c.tar.json"
  {
    var segs := ["a.b", "c.tar.gz"];
    assert Parse(key) == PurePath(false, segs) by {
      ParseSegments(segs);
      assert Join(segs) == key;
    }
    assert segs == ["a.b"] + [] + ["c.tar.gz"];
    DoubleExtensionSpelling("c.tar.gz");
    ExifKeyReplacesExtension(key, "a.b", [], "c.tar.gz");
  }

  lemma DoubleExtensionSpelling(name: string)
    requires name == "c.tar.gz"
    ensures '.' in name
    ensures "exif/" + Join([] + [BeforeLastDot(name)]) + ".json" == "exif/c.tar.json"
  {
    assert name[5] == '.';
    LastDotAt(name, 5);
  }

  /** A name without extension gets ".json" appended. */
  lemma ExifKeyExampleNoExtension(key: string)
    requires key == "x/c"
    ensures ExifKey(key) == "exif/c.json"
  {
    var segs := ["x", "c"];
    assert Parse(key) == PurePath(false, segs) by {
      ParseSegments(segs);
      assert Join(segs) == key;
    }
    assert segs == ["x"] + [] + ["c"];
    NoExtensionSpelling("c");
    ExifKeyWithoutExtension(key, "x", [], "c");
  }

  lemma NoExtensionSpelling(name: string)
    requires name == "c"
    ensures '.' !in name && '.' !in Join([])
    ensures "exif/" + Join([] + [name]) + ".json" == "exif/c.json"
  {
    assert [] + [name] == [name];
  }

  // ---------------------------------------------------------------------------------
  // The destination key as evidently intended

  /** The components the EXIF key keeps: every part after the first, or the name alone. */
  function KeptParts(p: PurePath): seq<string> {
    if PartCount(p) > 1 then DropFirstPart(p)
    else if Name(p) == "" then []
    else [Name(p)]
  }

  /** The same key with the extension stripped from the file name only, so that a '.'
      in a directory is never where the cut falls: the directories after the first are
      kept whole, and only the file name loses its last extension. */
  function ExifKeyIntended(key: string): (r: string)
    ensures |r| >= 9 && r[..4] == "exif" && r[|r| - 5..] == ".json"
  {
    var kept := KeptParts(Parse(key));
    if |kept| == 0 then "exif.json"
    else
      var n := |kept| - 1;
      "exif/" + Join(kept[..n] + [BeforeLastDot(kept[n])]) + ".json"
  }

  /** Every directory after the first is kept, whether or not the name has a '.'. */
  lemma ExifKeyIntendedKeepsDirectories(key: string, first: string, dirs: seq<string>, name: string)
    requires Parse(key) == PurePath(false, [first] + dirs + [name])
    ensures ExifKeyIntended(key) == "exif/" + Join(dirs + [BeforeLastDot(name)]) + ".json"
  {
    var kept := KeptParts(Parse(key));
    assert kept == dirs + [name];
    assert kept[..|kept| - 1] == dirs;
  }

  /** The handler's key is the intended one exactly when the file name has a '.' or no
      kept directory has one. */
  lemma ExifKeyAsIntended(key: string, first: string, dirs: seq<string>, name: string)
    requires Parse(key) == PurePath(false, [first] + dirs + [name])
    ensures ExifKey(key) == ExifKeyIntended(key) <==> '.' in name || '.' !in Join(dirs)
  {
    ExifKeyIntendedKeepsDirectories(key, first, dirs, name);
    if '.' in name {
      ExifKeyReplacesExtension(key, first, dirs, name);
    } else {
      ExifKeyWithoutExtension(key, first, dirs, name);
      if '.' in Join(dirs) {
        JoinSnoc(dirs, name);
        assert |dirs| > 0;
        assert |BeforeLastDot("exif/" + Join(dirs))| < |"exif/" + Join(dirs)|;
        assert |ExifKey(key)| < |ExifKeyIntended(key)|;
      }
    }
  }

  /** A dot-free name under a directory with a '.': the handler cuts inside the
      directory and loses the name. */
  lemma DotInLastDirectory(key: string, first: string, dir: string, name: string)
    requires Parse(key) == PurePath(false, [first, dir, name])
    requires '.' in dir && '.' !in name
    ensures ExifKey(key) == BeforeLastDot("exif/" + dir) + ".json"
  {
    assert [first, dir, name] == [first] + [dir] + [name];
    ExifKeyWithoutExtension(key, first, [dir], name);
    assert Join([dir]) == dir;
  }

  lemma IntendedOneDirectory(key: string, first: string, dir: string, name: string)
    requires Parse(key) == PurePath(false, [first, dir, name])
    requires '.' !in name
    ensures ExifKeyIntended(key) == "exif/" + dir + "/" + name + ".json"
  {
    assert [first, dir, name] == [first] + [dir] + [name];
    ExifKeyIntendedKeepsDirectories(key, first, [dir], name);
    assert Join([dir] + [name]) == dir + "/" + name;
    assert BeforeLastDot(name) == name;
  }

  /** "x/a.b/c" is written to "exif/a.json", where "exif/a.b/c.json" is meant. */
  lemma ExifKeyExampleDotInDirectory(key: string)
    requires key == "x/a.b/c"
    ensures ExifKey(key) == "exif/a.json"
    ensures ExifKeyIntended(key) == "exif/a.b/c.json"
  {
    var segs := ["x", "a.b", "c"];
    assert Parse(key) == PurePath(false, segs) by {
      ParseSegments(segs);
      assert Join(segs) == key;
    }
    DotInDirectorySpelling("a.b", "c");
    DotInLastDirectory(key, "x", "a.b", "c");
    IntendedOneDirectory(key, "x", "a.b", "c");
  }

  lemma DotInDirectorySpelling(dir: string, name: string)
    requires dir == "a.b" && name == "c"
    ensures '.' in dir && '.' !in name
    ensures BeforeLastDot("exif/" + dir) + ".json" == "exif/a.json"
    ensures "exif/" + dir + "/" + name + ".json" == "exif/a.b/c.json"
  {
    assert dir[1] == '.';
    LastDotAt("exif/" + dir, 6);
  }

  // ---------------------------------------------------------------------------------
  // Processing one item

  /** What downloading and opening the object, then asking it for EXIF, gives:
      `_getexif` raised (the object is not an image that carries EXIF that way), it
      returned None, or it returned the (tag id, value) pairs in iteration order. */
  datatype ExifRead = Unreadable | NoExif | Tags(entries: seq<(int, TagValue)>)

  /** One `put_object` call. */
  datatype Upload = Upload(bucket: string, key: string, body: string, contentType: string)

  /** Why processing one item failed. */
  datatype Fault = DownloadFailed | ExifFailed | EncodeFailed | UploadFailed

  /** The collaborators of one item: the store and imaging library (`open`: None when
      the download or `Image.open` raises), the library's `TAGS` table, its byte
      decoding, `json.dumps(..., indent=2)` (None when a value cannot be serialized),
      and whether the store accepts an upload. */
  datatype ExifEnv = ExifEnv(
    open: (string, string) -> Option<ExifRead>,
    tags: map<int, string>,
    decode: seq<bv8> -> string,
    dump: Dict -> Option<string>,
    put: Upload -> bool)

  const JsonType := "application/json"

  /** The dictionary written for what the image reported: empty when it has no EXIF. */
  function Metadata(read: ExifRead, env: ExifEnv): (r: Dict)
    requires !read.Unreadable?
    ensures read.NoExif? ==> r == []
    ensures read.Tags? ==> |r| <= |read.entries| && Distinct(r)
  {
    if read.Tags? then
      RenamedDistinct(read.entries, env.tags, env.decode);
      Renamed(read.entries, env.tags, env.decode)
    else []
  }

  /** The body of the inner `try` for one (bucket, key): the upload made, or the
      first step that raised. */
  function ProcessExif(env: ExifEnv, bucket: string, key: string): (r: Result<Upload, Fault>)
    ensures env.open(bucket, key).None? ==> r == Err(DownloadFailed)
    ensures env.open(bucket, key) == Some(Unreadable) ==> r == Err(ExifFailed)
    ensures r.Ok? ==> (&& r.value.bucket == bucket && r.value.key == ExifKey(key)
                       && r.value.contentType == JsonType && env.put(r.value)
                       && Some(r.value.body) == env.dump(Metadata(env.open(bucket, key).value, env)))
  {
    match env.open(bucket, key)
    case None => Err(DownloadFailed)
    case Some(read) =>
      if read.Unreadable? then Err(ExifFailed)
      else
        match env.dump(Metadata(read, env))
        case None => Err(EncodeFailed)
        case Some(body) =>
          var upload := Upload(bucket, ExifKey(key), body, JsonType);
          if env.put(upload) then Ok(upload) else Err(UploadFailed)
  }

  /** An image without EXIF is no failure: the empty dictionary is written and the
      item succeeds. */
  lemma NoExifStillUploaded(env: ExifEnv, bucket: string, key: string)
    requires env.open(bucket, key) == Some(NoExif)
    requires env.dump([]).Some?
    requires env.put(Upload(bucket, ExifKey(key), env.dump([]).value, JsonType))
    ensures ProcessExif(env, bucket, key) == Ok(Upload(bucket, ExifKey(key), env.dump([]).value, JsonType))
  {
  }

  /** An item succeeds exactly when the object opens with readable EXIF (or none), the
      dictionary serializes, and the store takes the upload at the derived key. */
  lemma ProcessExifSucceeds(env: ExifEnv, bucket: string, key: string)
    ensures ProcessExif(env, bucket, key).Ok?
        <==> && env.open(bucket, key).Some?
             && !env.open(bucket, key).value.Unreadable?
             && env.dump(Metadata(env.open(bucket, key).value, env)).Some?
             && env.put(Upload(bucket, ExifKey(key),
                               env.dump(Metadata(env.open(bucket, key).value, env)).value, JsonType))
  {
  }

  /** Whether the item at (bucket, key) is processed successfully. */
  function Succeeds(env: ExifEnv): (ok: Pipeline.Oracle)
    ensures forall bucket, key :: ok(bucket, key) <==> ProcessExif(env, bucket, key).Ok?
    ensures forall bucket, key :: env.open(bucket, key).None? ==> !ok(bucket, key)
  {
    (bucket, key) => ProcessExif(env, bucket, key).Ok?
  }

  /** `exif_handler(event, context)`. */
  method ExifHandler(event: Pipeline.Event, env: ExifEnv) returns (summary: Pipeline.Summary)
    ensures summary == Pipeline.Outcome(event, Succeeds(env))
  {
    summary := Pipeline.HandleBatch(event, Succeeds(env));
  }

  /** One message with a photo carrying EXIF and a key that is not in the store:
      207, one processed, one failed. */
  lemma MissingObjectIsPartialFailure(env: ExifEnv, bucket: string, good: string, missing: string)
    requires ProcessExif(env, bucket, good).Ok?
    requires env.open(bucket, missing).None?
    ensures Pipeline.Outcome(Pipeline.Event(Some([Pipeline.Message(Some(
              [Pipeline.Item(bucket, good), Pipeline.Item(bucket, missing)]))])), Succeeds(env))
         == Pipeline.Summary(207, 1, 1)
  {
    var rs := [Pipeline.Item(bucket, good), Pipeline.Item(bucket, missing)];
    var es := [Pipeline.Message(Some(rs))];
    assert Succeeds(env)(bucket, good) && !Succeeds(env)(bucket, missing);
    Pipeline.AgreesWithIntended(es, Succeeds(env), Pipeline.Start);
    assert Pipeline.AllRecords(es) == rs + Pipeline.AllRecords([]);
    assert rs[1..] == [Pipeline.Item(bucket, missing)] && rs[1..][1..] == [];
    assert Pipeline.Successes(rs[1..], Succeeds(env)) == 0;
    assert Pipeline.Successes(rs, Succeeds(env)) == 1;
    assert Pipeline.Failures(rs[1..], Succeeds(env)) == 1;
    assert Pipeline.Failures(rs, Succeeds(env)) == 1;
    assert Pipeline.BadEnvelopes(es) == 0 + Pipeline.BadEnvelopes([]);
  }
}
