/** The resize handler: for every readable storage record, open the image, shrink it in
    place to fit 800 x 600, and write it as JPEG into the same bucket under
    "processed/resize/" followed by the source key's file name. */
module ResizeLambda {
  import opened Wrappers
  import opened PosixPath
  import Pipeline

  // ---------------------------------------------------------------------------------
  // Destination key

  const Prefix := "processed/resize/"

  /** `f"processed/resize/{Path(object_key).name}"`. */
  function ResizeKey(key: string): (r: string)
    ensures |r| >= |Prefix| && r[..|Prefix|] == Prefix
    ensures r[|Prefix|..] == Name(Parse(key))
    ensures '/' !in r[|Prefix|..]
  {
    var name := Name(Parse(key));
    assert name != "" ==> IsSegment(Parse(key).tail[|Parse(key).tail| - 1]);
    Prefix + name
  }

  /** Only the file name matters: two keys go to the same destination exactly when
      their last components agree, whatever their directories. */
  lemma ResizeKeySame(key1: string, key2: string)
    ensures ResizeKey(key1) == ResizeKey(key2) <==> Name(Parse(key1)) == Name(Parse(key2))
  {
    if ResizeKey(key1) == ResizeKey(key2) {
      assert ResizeKey(key1)[|Prefix|..] == ResizeKey(key2)[|Prefix|..];
    }
  }

  /** A key written as directories and a file name goes to the file name under the
      prefix: the directories are dropped and the extension is kept. */
  lemma {:induction false} ResizeKeyOfSegments(dirs: seq<string>, name: string)
    requires AllSegments(dirs + [name])
    ensures ResizeKey(Join(dirs + [name])) == Prefix + name
  {
    ParseSegments(dirs + [name]);
  }

  /** The same file name in two different directories lands on the same destination. */
  lemma ResizeKeyIgnoresDirectories(dirs1: seq<string>, dirs2: seq<string>, name: string)
    requires AllSegments(dirs1 + [name]) && AllSegments(dirs2 + [name])
    ensures ResizeKey(Join(dirs1 + [name])) == ResizeKey(Join(dirs2 + [name]))
  {
    ResizeKeyOfSegments(dirs1, name);
    ResizeKeyOfSegments(dirs2, name);
  }

  // ---------------------------------------------------------------------------------
  // Processing one item

  /** The bound handed to `thumbnail`. */
  const MaxWidth := 800
  const MaxHeight := 600

  /** One `upload_fileobj` call: the encoded image written at (bucket, key). */
  datatype Write = Write(bucket: string, key: string, body: seq<bv8>)

  /** Why processing one item failed. */
  datatype Fault = DownloadFailed | ResizeFailed | EncodeFailed | UploadFailed

  /** The collaborators of one item, over the imaging library's image type `Img`:
      downloading and opening the object (None when either raises), `thumbnail` with a
      bound (None when it raises; otherwise the image as the call leaves it), saving as
      JPEG (None when the image cannot be written that way), and whether the store
      accepts an upload. */
  datatype ResizeEnv<!Img> = ResizeEnv(
    open: (string, string) -> Option<Img>,
    thumbnail: (Img, nat, nat) -> Option<Img>,
    encode: Img -> Option<seq<bv8>>,
    put: Write -> bool)

  /** The body of the inner `try` for one (bucket, key): the write made, or the step
      that raised. */
  function ProcessResize<Img>(env: ResizeEnv<Img>, bucket: string, key: string): (r: Result<Write, Fault>)
    ensures env.open(bucket, key).None? ==> r == Err(DownloadFailed)
    ensures env.open(bucket, key).Some? && env.thumbnail(env.open(bucket, key).value, MaxWidth, MaxHeight).None?
            ==> r == Err(ResizeFailed)
    ensures r.Ok? ==> (&& r.value.bucket == bucket && r.value.key == ResizeKey(key) && env.put(r.value)
                       && Some(r.value.body) == env.encode(
                            env.thumbnail(env.open(bucket, key).value, MaxWidth, MaxHeight).value))
  {
    match env.open(bucket, key)
    case None => Err(DownloadFailed)
    case Some(image) =>
      match env.thumbnail(image, MaxWidth, MaxHeight)
      case None => Err(ResizeFailed)
      case Some(small) =>
        match env.encode(small)
        case None => Err(EncodeFailed)
        case Some(body) =>
          var write := Write(bucket, ResizeKey(key), body);
          if env.put(write) then Ok(write) else Err(UploadFailed)
  }

  /** An item succeeds exactly when the image opens, shrinks to the 800 x 600 bound,
      encodes as JPEG, and the store takes the write at the derived key. */
  lemma ProcessResizeSucceeds<Img>(env: ResizeEnv<Img>, bucket: string, key: string)
    ensures ProcessResize(env, bucket, key).Ok?
        <==> && env.open(bucket, key).Some?
             && env.thumbnail(env.open(bucket, key).value, MaxWidth, MaxHeight).Some?
             && env.encode(env.thumbnail(env.open(bucket, key).value, MaxWidth, MaxHeight).value).Some?
             && env.put(Write(bucket, ResizeKey(key),
                              env.encode(env.thumbnail(env.open(bucket, key).value, MaxWidth, MaxHeight).value).value))
  {
  }

  /** Two successful items of the same bucket whose keys share a file name write to
      the same object: the later write replaces the earlier one. */
  lemma SameNameSameTarget<Img>(env: ResizeEnv<Img>, bucket: string, key1: string, key2: string)
    requires ProcessResize(env, bucket, key1).Ok? && ProcessResize(env, bucket, key2).Ok?
    requires Name(Parse(key1)) == Name(Parse(key2))
    ensures ProcessResize(env, bucket, key1).value.key == ProcessResize(env, bucket, key2).value.key
  {
    ResizeKeySame(key1, key2);
  }

  /** Whether the item at (bucket, key) is processed successfully. */
  function Succeeds<Img>(env: ResizeEnv<Img>): (ok: Pipeline.Oracle)
    ensures forall bucket, key :: ok(bucket, key) <==> ProcessResize(env, bucket, key).Ok?
    ensures forall bucket, key :: env.open(bucket, key).None? ==> !ok(bucket, key)
  {
    (bucket, key) => ProcessResize(env, bucket, key).Ok?
  }

  /** `resize_handler(event, context)`. */
  method ResizeHandler<Img>(event: Pipeline.Event, env: ResizeEnv<Img>) returns (summary: Pipeline.Summary)
    ensures summary == Pipeline.Outcome(event, Succeeds(env))
  {
    summary := Pipeline.HandleBatch(event, Succeeds(env));
  }
}
