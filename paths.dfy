/** The parts of POSIX `os.path` and `pathlib` the pipeline uses, on strings. */
module Paths {
  import opened Wrappers
  import opened Strings

  /** `os.path.join(a, b)`: an absolute `b` replaces `a`; otherwise one `/` goes between them unless `a` is empty or ends with one. */
  function PathJoin(a: string, b: string): (r: string)
    ensures StartsWith(b, "/") ==> r == b
    ensures !StartsWith(b, "/") ==> EndsWith(r, b) && |a| <= |r| && r[..|a|] == a
    ensures !StartsWith(b, "/") && a != [] && a[|a| - 1] != '/' ==> r == a + "/" + b
    ensures !StartsWith(b, "/") && (a == [] || a[|a| - 1] == '/') ==> r == a + b
  {
    if StartsWith(b, "/") then b
    else if a == [] || a[|a| - 1] == '/' then a + b
    else a + "/" + b
  }

  /** The index just after the last `/` of `p`, or 0 (`p.rfind('/') + 1`). */
  function AfterLastSlash(p: string): (i: nat)
    ensures i <= |p|
    ensures i > 0 ==> p[i - 1] == '/'
    ensures forall j :: i <= j < |p| ==> p[j] != '/'
  {
    var r := RFindAtMost(p, "/", |p| - 1);
    var i := if r.Some? then r.value + 1 else 0;
    assert forall j :: i <= j < |p| ==> p[j] != '/' by {
      forall j | i <= j < |p| ensures p[j] != '/' {
        assert !OccursAt(p, "/", j);
        assert p[j..j + 1] == [p[j]];
      }
    }
    assert i > 0 ==> p[i - 1..i] == "/";
    i
  }

  /** `os.path.split(p)`: the directory part (trailing slashes removed unless it is all slashes) and the last component. */
  function PathSplit(p: string): (r: (string, string))
    ensures var i := AfterLastSlash(p);
      r.1 == p[i..]
      && ((exists j :: 0 <= j < i && p[j] != '/') ==> r.0 == RStrip(p[..i], {'/'}))
      && ((forall j :: 0 <= j < i ==> p[j] == '/') ==> r.0 == p[..i])
  {
    var i := AfterLastSlash(p);
    var head := p[..i];
    var tail := p[i..];
    if head != [] && exists j :: 0 <= j < |head| && head[j] != '/' then (RStrip(head, {'/'}), tail)
    else (head, tail)
  }

  /** The last component of a path holds no `/` and, unless it is the whole path, follows one. */
  lemma PathSplitTail(p: string)
    ensures var t := PathSplit(p).1;
      EndsWith(p, t) && '/' !in t && (|t| < |p| ==> p[|p| - |t| - 1] == '/')
  {
    var i := AfterLastSlash(p);
    assert PathSplit(p).1 == p[i..];
  }

  /** `os.path.splitext(name)` for a name without `/`: the extension starts at the last dot, unless only dots precede it. */
  function SplitExt(name: string): (r: (string, string))
    ensures r.0 + r.1 == name
    ensures r.1 != [] ==> r.1[0] == '.' && '.' !in r.1[1..]
  {
    match RFindAtMost(name, ".", |name| - 1)
    case None => (name, "")
    case Some(d) =>
      if exists j :: 0 <= j < d && name[j] != '.' then
        assert '.' !in name[d..][1..] by {
          forall j | d < j < |name| ensures name[j] != '.' {
            assert !OccursAt(name, ".", j);
            assert name[j..j + 1] == [name[j]];
          }
        }
        assert name[d..d + 1] == ".";
        assert name[d..][0] == name[d] == '.';
        (name[..d], name[d..])
      else (name, "")
  }

  /** Two suffixes of a path that hold no `/`, and each follow a `/` unless they are the whole path, are the same. */
  lemma LastComponentUnique(p: string, t1: string, t2: string)
    requires EndsWith(p, t1) && '/' !in t1 && (|t1| < |p| ==> p[|p| - |t1| - 1] == '/')
    requires EndsWith(p, t2) && '/' !in t2 && (|t2| < |p| ==> p[|p| - |t2| - 1] == '/')
    ensures t1 == t2
  {
    assert forall i :: |p| - |t1| <= i < |p| ==> p[i] == t1[i - (|p| - |t1|)];
    assert forall i :: |p| - |t2| <= i < |p| ==> p[i] == t2[i - (|p| - |t2|)];
  }

  /** `os.path.split` finds the same last component as `p.split("/")[-1]`. */
  lemma PathSplitTailIsLastSegment(p: string)
    ensures PathSplit(p).1 == Last(Split(p, "/"))
  {
    var t1 := PathSplit(p).1;
    var t2 := Last(Split(p, "/"));
    PathSplitTail(p);
    LastSegmentShape(p);
    LastComponentUnique(p, t1, t2);
  }

  /** The last piece of `p.split("/")` holds no `/` and, unless it is the whole path, follows one. */
  lemma LastSegmentShape(p: string)
    ensures var t := Last(Split(p, "/"));
      EndsWith(p, t) && '/' !in t && (|t| < |p| ==> p[|p| - |t| - 1] == '/')
  {
    var t := Last(Split(p, "/"));
    SplitLastIsSuffix(p, "/");
    SplitLastAvoidsSeparator(p, "/");
    CharFound(t, '/');
    if Find(p, "/").Some? {
      SplitLastPreceded(p, "/");
      var k := |p| - |t| - 1;
      assert p[k..k + 1] == "/";
    } else {
      assert Split(p, "/") == [p];
    }
  }

  /** A component of a `pathlib` path: never empty, never `.`, and without `/`. */
  predicate Component(c: string)
  {
    c != [] && c != "." && '/' !in c
  }

  /** A `pathlib.PurePosixPath`: whether it starts at the root, and its components. */
  datatype PosixPath = PosixPath(rooted: bool, parts: seq<string>)

  predicate WellFormed(p: PosixPath)
  {
    forall k :: 0 <= k < |p.parts| ==> Component(p.parts[k])
  }

  /** The pieces between slashes that `pathlib` keeps: the empty ones and `.` are dropped. */
  function Components(pieces: seq<string>): (r: seq<string>)
    ensures |r| <= |pieces|
    ensures forall k :: 0 <= k < |r| ==> r[k] != [] && r[k] != "." && r[k] in pieces
    ensures forall x :: x in r <==> x in pieces && x != [] && x != "."
    decreases |pieces|
  {
    if pieces == [] then []
    else
      assert pieces == [pieces[0]] + pieces[1..];
      (if pieces[0] != [] && pieces[0] != "." then [pieces[0]] else []) + Components(pieces[1..])
  }

  /** One piece is kept exactly when it is neither empty nor `.`. */
  lemma ComponentsSingle(x: string)
    ensures Components([x]) == if x != [] && x != "." then [x] else []
  {
    assert [x][1..] == [];
  }

  /** The pieces are filtered one by one, so the kept ones stay in order. */
  lemma {:induction false} ComponentsConcat(p1: seq<string>, p2: seq<string>)
    ensures Components(p1 + p2) == Components(p1) + Components(p2)
    decreases |p1|
  {
    if p1 == [] {
      assert p1 + p2 == p2;
    } else {
      var both := p1 + p2;
      assert both[0] == p1[0] && both[1..] == p1[1..] + p2;
      ComponentsConcat(p1[1..], p2);
      var head := if p1[0] != [] && p1[0] != "." then [p1[0]] else [];
      assert Components(both) == head + (Components(p1[1..]) + Components(p2));
      assert Components(p1) == head + Components(p1[1..]);
      AppendAssoc(head, Components(p1[1..]), Components(p2));
    }
  }

  /** `PurePosixPath(s)`: repeated slashes, a trailing slash and `.` components do not count. */
  function ParsePath(s: string): (p: PosixPath)
    ensures p.rooted <==> StartsWith(s, "/")
    ensures forall k :: 0 <= k < |p.parts| ==> p.parts[k] != [] && p.parts[k] != "." && p.parts[k] in Split(s, "/")
    ensures forall x :: x in p.parts <==> x in Split(s, "/") && x != [] && x != "."
  {
    PosixPath(StartsWith(s, "/"), Components(Split(s, "/")))
  }

  /** Inner `//` and `/./` do not count: `PurePosixPath("a//./b")` has the components `a` and `b`. */
  lemma ParseCollapses()
    ensures ParsePath("a//./b") == PosixPath(false, ["a", "b"])
  {
    var pieces := ["a", "", ".", "b"];
    SplitCollapses(pieces);
    ComponentsCollapse(pieces);
    assert !StartsWith("a//./b", "/");
  }

  lemma SplitCollapses(pieces: seq<string>)
    requires pieces == ["a", "", ".", "b"]
    ensures Split("a//./b", "/") == pieces
  {
    assert Join("/", pieces) == "a//./b" by {
      assert Join("/", ["b"]) == "b";
      JoinCons("/", ".", ["b"]);
      assert [".", "b"] == [".", "b"];
      JoinCons("/", "", [".", "b"]);
      JoinCons("/", "a", ["", ".", "b"]);
      assert pieces == ["a"] + ["", ".", "b"];
      assert "a" + "/" + ("" + "/" + ("." + "/" + "b")) == "a//./b";
    }
    SplitJoin(pieces, "/");
  }

  lemma ComponentsCollapse(pieces: seq<string>)
    requires pieces == ["a", "", ".", "b"]
    ensures Components(pieces) == ["a", "b"]
  {
    ComponentsOfFour(pieces[0], pieces[1], pieces[2], pieces[3]);
    assert pieces == [pieces[0], pieces[1], pieces[2], pieces[3]];
    ComponentsSingle(pieces[0]);
    ComponentsSingle(pieces[1]);
    ComponentsSingle(pieces[2]);
    ComponentsSingle(pieces[3]);
  }

  lemma ComponentsOfFour(w: string, x: string, y: string, z: string)
    ensures Components([w, x, y, z]) == Components([w]) + Components([x]) + Components([y]) + Components([z])
  {
    assert [w, x, y, z] == [w, x, y] + [z];
    assert [w, x, y] == [w, x] + [y];
    assert [w, x] == [w] + [x];
    ComponentsConcat([w, x, y], [z]);
    ComponentsConcat([w, x], [y]);
    ComponentsConcat([w], [x]);
  }

  /** The components of a parsed path hold no `/`. */
  lemma ParsePathWellFormed(s: string)
    ensures WellFormed(ParsePath(s))
  {
    var pieces := Split(s, "/");
    SplitPiecesAvoidSeparator(s, "/");
    forall k | 0 <= k < |pieces|
      ensures '/' !in pieces[k]
    {
      CharFound(pieces[k], '/');
    }
  }

  /** `str(p)`: the components joined by `/`, behind the root if there is one; `.` for the empty relative path. */
  function PathStr(p: PosixPath): string
  {
    if p.rooted then "/" + Join("/", p.parts)
    else if p.parts == [] then "."
    else Join("/", p.parts)
  }

  /** `a / b`: a rooted `b` replaces `a`; otherwise the components of `b` follow those of `a`. */
  function JoinPath(a: PosixPath, b: PosixPath): (r: PosixPath)
    ensures WellFormed(a) && WellFormed(b) ==> WellFormed(r)
    ensures b.rooted ==> r == b
    ensures !b.rooted ==> r.rooted == a.rooted && r.parts == a.parts + b.parts
  {
    if b.rooted then b else PosixPath(a.rooted, a.parts + b.parts)
  }

  /** Components are kept as they are. */
  lemma {:induction false} ComponentsKeep(parts: seq<string>)
    requires forall k :: 0 <= k < |parts| ==> Component(parts[k])
    ensures Components(parts) == parts
    decreases |parts|
  {
    if parts != [] {
      ComponentsKeep(parts[1..]);
      assert [parts[0]] + parts[1..] == parts;
    }
  }

  /** A single component parses as the relative path of that component. */
  lemma ParseComponent(c: string)
    requires Component(c)
    ensures ParsePath(c) == PosixPath(false, [c])
  {
    assert Join("/", [c]) == c;
    SplitJoin([c], "/");
    ComponentsKeep([c]);
    assert !StartsWith(c, "/") by { assert c[..1] == [c[0]]; }
  }

  /** The empty string parses as the empty relative path, so joining it changes nothing. */
  lemma ParseEmpty(a: PosixPath)
    ensures ParsePath("") == PosixPath(false, [])
    ensures JoinPath(a, ParsePath("")) == a
  {
    assert Join("/", [""]) == "";
    SplitJoin([""], "/");
  }

  /** `str` and parsing are inverse: a well-formed path parses back from its string. */
  lemma ParsePathStr(p: PosixPath)
    requires WellFormed(p)
    ensures ParsePath(PathStr(p)) == p
  {
    if p.rooted {
      ParseRooted(p.parts);
    } else if p.parts == [] {
      assert Join("/", ["."]) == ".";
      SplitJoin(["."], "/");
    } else {
      ParseRelative(p.parts);
    }
  }

  /** A rooted path's string splits into an empty piece and its components. */
  lemma ParseRooted(parts: seq<string>)
    requires forall k :: 0 <= k < |parts| ==> Component(parts[k])
    ensures ParsePath("/" + Join("/", parts)) == PosixPath(true, parts)
  {
    if parts == [] {
      ParseRoot();
    } else {
      var s := "/" + Join("/", parts);
      assert StartsWith(s, "/") by { assert s[..1] == "/"; }
      assert Components(Split(s, "/")) == parts by {
        RootedPieces(parts);
        ComponentsSkipEmpty(parts);
        ComponentsKeep(parts);
      }
    }
  }

  /** An empty piece, such as the one in front of a leading slash, adds no component. */
  lemma ComponentsSkipEmpty(pieces: seq<string>)
    ensures Components([""] + pieces) == Components(pieces)
  {
    assert ([""] + pieces)[1..] == pieces;
  }

  /** `PurePosixPath("/")` is the root, with no components. */
  lemma ParseRoot()
    ensures ParsePath("/") == PosixPath(true, [])
  {
    assert StartsWith("/", "/");
    assert Split("/", "/") == ["", ""] by {
      assert Join("/", ["", ""]) == "/";
      SplitJoin(["", ""], "/");
    }
    assert Components([""]) == [] by {
      assert [""][1..] == [];
    }
    assert ["", ""][1..] == [""];
  }

  /** The pieces of a rooted path's string: an empty one, then the components. */
  lemma RootedPieces(parts: seq<string>)
    requires parts != [] && forall k :: 0 <= k < |parts| ==> Component(parts[k])
    ensures Split("/" + Join("/", parts), "/") == [""] + parts
  {
    var pieces := [""] + parts;
    assert Join("/", pieces) == "/" + Join("/", parts) by {
      JoinCons("/", "", parts);
      assert "" + "/" == "/";
    }
    forall k | 0 <= k < |pieces|
      ensures "/"[0] !in pieces[k]
    {
      if k > 0 {
        assert pieces[k] == parts[k - 1];
      }
    }
    SplitJoin(pieces, "/");
  }

  /** A relative path with components splits into them. */
  lemma ParseRelative(parts: seq<string>)
    requires parts != [] && forall k :: 0 <= k < |parts| ==> Component(parts[k])
    ensures ParsePath(Join("/", parts)) == PosixPath(false, parts)
  {
    var s := Join("/", parts);
    SplitJoin(parts, "/");
    ComponentsKeep(parts);
    JoinStartsWith("/", parts);
    assert s[0] == parts[0][0] != '/';
  }
}
