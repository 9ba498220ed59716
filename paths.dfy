/** Object keys read as POSIX paths, the way Python's `pathlib.Path` reads them:
    the key is cut at every '/', empty and "." pieces are dropped, and a leading '/'
    becomes a root part of its own. */
module PosixPath {

  /** A path component as pathlib keeps it: not empty, not ".", no separator. */
  predicate IsSegment(s: string) {
    s != "" && s != "." && '/' !in s
  }

  predicate AllSegments(segs: seq<string>) {
    forall i :: 0 <= i < |segs| ==> IsSegment(segs[i])
  }

  /** `s.split('/')`: the pieces between separators, in order; never empty. */
  function Split(s: string): (r: seq<string>)
    ensures |r| >= 1
    ensures forall i :: 0 <= i < |r| ==> '/' !in r[i]
    decreases |s|
  {
    if |s| == 0 then [""]
    else
      var rest := Split(s[1..]);
      if s[0] == '/' then [""] + rest
      else [[s[0]] + rest[0]] + rest[1..]
  }

  /** `'/'.join(segs)`. */
  function Join(segs: seq<string>): string
    decreases |segs|
  {
    if |segs| == 0 then ""
    else if |segs| == 1 then segs[0]
    else segs[0] + "/" + Join(segs[1..])
  }

  /** Splitting and joining again gives the key back. */
  lemma {:induction false} JoinSplit(s: string)
    ensures Join(Split(s)) == s
    decreases |s|
  {
    if |s| > 0 {
      JoinSplit(s[1..]);
      var rest := Split(s[1..]);
      if s[0] == '/' {
        assert [""] + rest == [""] + rest[0..1] + rest[1..];
        calc {
          Join([""] + rest);
          "" + "/" + Join(rest);
          { assert s == "/" + s[1..]; }
          s;
        }
      } else {
        var head := [s[0]] + rest[0];
        if |rest| == 1 {
          assert s == [s[0]] + s[1..];
        } else {
          assert Join(rest) == rest[0] + "/" + Join(rest[1..]);
          assert ([head] + rest[1..])[1..] == rest[1..];
          assert s == [s[0]] + s[1..];
        }
      }
    }
  }

  /** A piece without a separator splits to itself. */
  lemma {:induction false} SplitPiece(x: string)
    requires '/' !in x
    ensures Split(x) == [x]
    decreases |x|
  {
    if |x| > 0 {
      assert '/' !in x[1..] by {
        forall c | c in x[1..] ensures c != '/' { assert c in x; }
      }
      SplitPiece(x[1..]);
      assert [x[0]] + x[1..] == x;
    }
  }

  /** A piece followed by a separator splits off as the first element. */
  lemma {:induction false} SplitAfterPiece(x: string, rest: string)
    requires '/' !in x
    ensures Split(x + "/" + rest) == [x] + Split(rest)
    decreases |x|
  {
    if |x| == 0 {
      assert x + "/" + rest == "/" + rest;
      assert ("/" + rest)[1..] == rest;
    } else {
      assert '/' !in x[1..] by {
        forall c | c in x[1..] ensures c != '/' { assert c in x; }
      }
      SplitAfterPiece(x[1..], rest);
      var s := x + "/" + rest;
      assert s[0] == x[0];
      assert s[1..] == x[1..] + "/" + rest;
      assert [x[0]] + x[1..] == x;
    }
  }

  /** Joining pieces that hold no separator and splitting again gives the pieces back. */
  lemma {:induction false} SplitJoin(xs: seq<string>)
    requires |xs| >= 1
    requires forall i :: 0 <= i < |xs| ==> '/' !in xs[i]
    ensures Split(Join(xs)) == xs
    decreases |xs|
  {
    if |xs| == 1 {
      SplitPiece(xs[0]);
    } else {
      SplitJoin(xs[1..]);
      SplitAfterPiece(xs[0], Join(xs[1..]));
      assert [xs[0]] + xs[1..] == xs;
    }
  }

  /** Joining with one more segment at the front. */
  lemma JoinCons(x: string, xs: seq<string>)
    ensures Join([x] + xs) == if |xs| == 0 then x else x + "/" + Join(xs)
  {
    if |xs| > 0 {
      assert ([x] + xs)[1..] == xs;
    }
  }

  /** Joining with one more segment at the end. */
  lemma {:induction false} JoinSnoc(xs: seq<string>, y: string)
    ensures Join(xs + [y]) == if |xs| == 0 then y else Join(xs) + "/" + y
    decreases |xs|
  {
    if |xs| > 1 {
      JoinSnoc(xs[1..], y);
      assert (xs + [y])[1..] == xs[1..] + [y];
    } else if |xs| == 1 {
      assert (xs + [y])[1..] == [y];
    }
  }

  /** The pieces pathlib keeps: everything but empty pieces and ".". */
  function Clean(pieces: seq<string>): (r: seq<string>)
    requires forall i :: 0 <= i < |pieces| ==> '/' !in pieces[i]
    ensures AllSegments(r)
    ensures |r| <= |pieces|
    decreases |pieces|
  {
    if |pieces| == 0 then []
    else if pieces[0] == "" || pieces[0] == "." then Clean(pieces[1..])
    else [pieces[0]] + Clean(pieces[1..])
  }

  /** Clean leaves a list of proper segments as it is. */
  lemma {:induction false} CleanSegments(segs: seq<string>)
    requires AllSegments(segs)
    ensures Clean(segs) == segs
    decreases |segs|
  {
    if |segs| > 0 {
      CleanSegments(segs[1..]);
      assert [segs[0]] + segs[1..] == segs;
    }
  }

  /** A parsed path: whether it starts at the root, and the components after the root. */
  datatype PurePath = PurePath(rooted: bool, tail: seq<string>)

  /** `Path(key)`. */
  function Parse(key: string): (p: PurePath)
    ensures AllSegments(p.tail)
    ensures p.rooted <==> |key| > 0 && key[0] == '/'
  {
    PurePath(|key| > 0 && key[0] == '/', Clean(Split(key)))
  }

  /** `len(Path(key).parts)`: the root, when there is one, counts as a part. */
  function PartCount(p: PurePath): (r: nat)
    ensures r >= |p.tail|
    ensures r == 0 <==> !p.rooted && |p.tail| == 0
  {
    |p.tail| + if p.rooted then 1 else 0
  }

  /** `Path(key).parts[1:]`. */
  function DropFirstPart(p: PurePath): (r: seq<string>)
    requires PartCount(p) >= 1
    ensures |r| == PartCount(p) - 1
    ensures r == p.tail[|p.tail| - |r|..]
  {
    if p.rooted then p.tail else p.tail[1..]
  }

  /** `Path(key).name`: the last component, or "" when there is none. */
  function Name(p: PurePath): (r: string)
    ensures |p.tail| == 0 ==> r == ""
    ensures |p.tail| > 0 ==> r == p.tail[|p.tail| - 1]
    ensures AllSegments(p.tail) ==> '/' !in r && (r == "" <==> |p.tail| == 0)
  {
    if |p.tail| == 0 then "" else p.tail[|p.tail| - 1]
  }

  /** Parsing a key written with redundant separators or "." pieces keeps only the
      proper segments, in order. */
  lemma ParseJoin(pieces: seq<string>)
    requires |pieces| >= 1
    requires forall i :: 0 <= i < |pieces| ==> '/' !in pieces[i]
    ensures Parse(Join(pieces)).tail == Clean(pieces)
  {
    SplitJoin(pieces);
  }

  /** A key written as proper segments parses to exactly those segments, unrooted. */
  lemma ParseSegments(segs: seq<string>)
    requires AllSegments(segs)
    ensures Parse(Join(segs)) == PurePath(false, segs)
  {
    if |segs| > 0 {
      SplitJoin(segs);
      CleanSegments(segs);
      if |segs| > 1 {
        assert Join(segs) == segs[0] + "/" + Join(segs[1..]);
        assert Join(segs)[0] == segs[0][0];
      }
    }
  }
}
