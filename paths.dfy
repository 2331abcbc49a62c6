/** Path algebra of the provider: splitting on `/`, resolving an input path against the
    working directory, and splitting a path into its parent part and its leaf name.
    Pure string logic; no table is consulted here. */
module Paths {
  import opened Wrappers

  /** `s.split("/")`: the pieces between slashes, empty pieces included, at least one. */
  function Split(s: string): (parts: seq<string>)
    ensures |parts| >= 1
    decreases |s|
  {
    if s == [] then [""]
    else
      var rest := Split(s[1..]);
      if s[0] == '/' then [""] + rest
      else [[s[0]] + rest[0]] + rest[1..]
  }

  /** `parts.join("/")`. */
  function Join(parts: seq<string>): string
  {
    if parts == [] then ""
    else if |parts| == 1 then parts[0]
    else parts[0] + "/" + Join(parts[1..])
  }

  /** The three filters the source applies to split pieces. */
  datatype Keep =
    | NonEmpty   // `filter(Boolean)`
    | Up         // `filter(v => v === "..")`
    | Name       // `filter(v => v && v !== "..")`

  predicate Keeps(k: Keep, v: string)
  {
    match k
    case NonEmpty => v != ""
    case Up => v == ".."
    case Name => v != "" && v != ".."
  }

  /** `parts.filter(...)` with one of the three filters. */
  function Filter(parts: seq<string>, k: Keep): (r: seq<string>)
    ensures |r| <= |parts|
  {
    if parts == [] then []
    else (if Keeps(k, parts[0]) then [parts[0]] else []) + Filter(parts[1..], k)
  }

  /** `p.split("/").filter(Boolean)`: the segments of a path. */
  function Pieces(p: string): seq<string>
  {
    Filter(Split(p), NonEmpty)
  }

  /** `segs.splice(-n)`, which the source runs only when `n` is not zero: drop the last `n`
      segments, or all of them when there are fewer. */
  function Pop(segs: seq<string>, n: nat): seq<string>
  {
    if n == 0 then segs
    else if n >= |segs| then []
    else segs[..|segs| - n]
  }

  /** The segments of the canonical path: the working directory's segments, less one trailing
      segment per `..` anywhere in the input, followed by the input's other non-empty pieces. */
  function Segments(wd: string, rel: string): seq<string>
  {
    var parts := Split(rel);
    Pop(Pieces(wd), |Filter(parts, Up)|) + Filter(parts, Name)
  }

  /** How `getAbsolutePath` writes segments out: `/`, or the segments joined by `/` between a
      leading and a trailing `/`. */
  function Render(segs: seq<string>): string
  {
    var joined := Join(segs);
    if joined == "" then "/" else "/" + joined + "/"
  }

  /** `getAbsolutePath`. */
  function GetAbsolutePath(wd: string, rel: string): string
  {
    Render(Segments(wd, rel))
  }

  /** A name for which `p + "/" + name` addresses a child of what `p` addresses. */
  predicate IsAddressable(name: string)
  {
    name != "" && name != ".." && '/' !in name
  }

  /** Every name of `names` is addressable. */
  predicate AllAddressable(names: seq<string>)
  {
    forall j :: 0 <= j < |names| ==> IsAddressable(names[j])
  }

  /** `splitPath`: `/` gives (`/`, no name); a path without `/` is refused; otherwise the text
      before the last `/` (or `/` when that is empty) and the text after it. */
  function SplitPath(path: string): (r: Result<(string, Option<string>)>)
    ensures r.Failure? <==> path != "/" && '/' !in path
    ensures r.Failure? ==> r.error == InvalidArgument
    ensures path == "/" ==> r == Success(("/", None))
    ensures r.Success? && path != "/" ==> r.value.1.Some? && '/' !in r.value.1.value
  {
    if path == "/" then Success(("/", None))
    else if '/' !in path then Failure(InvalidArgument)
    else
      var parts := Split(path);
      SplitSound(path);
      Success((var dir := Join(parts[..|parts| - 1]); if dir == "" then "/" else dir, Some(parts[|parts| - 1])))
  }

  /** Where `splitPath` cuts: at the last `/`, the leaf being the text after it. */
  lemma SplitPathShape(path: string)
    ensures var r := SplitPath(path);
      r.Success? && path != "/" ==>
      && var name := r.value.1.value;
      && var cut := |path| - |name| - 1;
      && 0 <= cut && path[cut] == '/' && path[cut + 1..] == name
      && r.value.0 == (if cut == 0 then "/" else path[..cut])
  {
    if path != "/" && '/' in path {
      var parts := Split(path);
      SplitSound(path);
      var init := parts[..|parts| - 1];
      var name := parts[|parts| - 1];
      JoinSnoc(init, name);
      assert parts == init + [name];
      var dir := Join(init);
      assert path == dir + "/" + name;
      assert path[|dir| + 1..] == name;
      assert path[..|dir|] == dir;
    }
  }

  /** The leaf a copy or a move gives its target: the destination's leaf, or the source's
      own name when that leaf is missing or empty (`newName || dir.name`). */
  function NewName(leaf: Option<string>, sourceName: string): string
  {
    if leaf.Some? && leaf.value != "" then leaf.value else sourceName
  }

  /** The path under which the children of a copied directory are placed: the new directory's
      own path, whether the destination named it or left its leaf empty. */
  function CopyTarget(newPath: string, leaf: Option<string>, sourceName: string): string
  {
    if leaf.Some? && leaf.value != "" then newPath else newPath + sourceName
  }

  // ---------------------------------------------------------------------------------------
  // Split and Join

  lemma {:induction false} JoinSnoc(init: seq<string>, last: string)
    requires |init| >= 1
    ensures Join(init + [last]) == Join(init) + "/" + last
    decreases |init|
  {
    if |init| > 1 {
      assert (init + [last])[1..] == init[1..] + [last];
      JoinSnoc(init[1..], last);
    }
  }

  /** The pieces contain no `/`, and joining them with `/` gives back the string. */
  lemma {:induction false} SplitSound(s: string)
    ensures forall i :: 0 <= i < |Split(s)| ==> '/' !in Split(s)[i]
    ensures Join(Split(s)) == s
    decreases |s|
  {
    if s != [] {
      SplitSound(s[1..]);
      var rest := Split(s[1..]);
      if s[0] == '/' {
        assert s == "/" + s[1..];
        assert ([""] + rest)[1..] == rest;
      } else {
        var first := [s[0]] + rest[0];
        assert s == [s[0]] + s[1..];
        assert Split(s) == [first] + rest[1..];
        if |rest| > 1 {
          assert ([first] + rest[1..])[1..] == rest[1..];
          assert Join(rest) == rest[0] + "/" + Join(rest[1..]);
        }
        forall i | 0 <= i < |Split(s)| ensures '/' !in Split(s)[i] {
          if i > 0 {
            assert Split(s)[i] == rest[i];
          } else {
            assert '/' !in rest[0];
          }
        }
      }
    }
  }

  lemma {:induction false} SplitNoSlash(s: string)
    requires '/' !in s
    ensures Split(s) == [s]
    decreases |s|
  {
    if s != [] {
      SplitNoSlash(s[1..]);
      assert [s[0]] + s[1..] == s;
    }
  }

  /** Splitting at a slash splits the two sides independently. */
  lemma {:induction false} SplitConcat(a: string, b: string)
    ensures Split(a + "/" + b) == Split(a) + Split(b)
    decreases |a|
  {
    var s := a + "/" + b;
    if a == [] {
      assert s[0] == '/' && s[1..] == b;
    } else {
      assert s[0] == a[0] && s[1..] == a[1..] + "/" + b;
      SplitConcat(a[1..], b);
      var ra, rs := Split(a[1..]), Split(s[1..]);
      assert rs == ra + Split(b);
      if a[0] != '/' {
        assert rs[0] == ra[0];
        assert rs[1..] == ra[1..] + Split(b);
      }
    }
  }

  /** Joining slash-free pieces and splitting again gives the pieces back. */
  lemma {:induction false} SplitJoin(parts: seq<string>)
    requires |parts| >= 1
    requires forall i :: 0 <= i < |parts| ==> '/' !in parts[i]
    ensures Split(Join(parts)) == parts
    decreases |parts|
  {
    if |parts| == 1 {
      SplitNoSlash(parts[0]);
    } else {
      SplitJoin(parts[1..]);
      SplitNoSlash(parts[0]);
      SplitConcat(parts[0], Join(parts[1..]));
      assert parts == [parts[0]] + parts[1..];
    }
  }

  lemma {:induction false} JoinNonEmpty(parts: seq<string>)
    requires parts != [] && parts[0] != ""
    ensures Join(parts) != ""
  {
    if |parts| > 1 {
      assert |Join(parts)| >= |parts[0]|;
    }
  }

  // ---------------------------------------------------------------------------------------
  // Filters

  lemma {:induction false} FilterConcat(a: seq<string>, b: seq<string>, k: Keep)
    ensures Filter(a + b, k) == Filter(a, k) + Filter(b, k)
    decreases |a|
  {
    if a != [] {
      assert (a + b)[0] == a[0];
      assert (a + b)[1..] == a[1..] + b;
      FilterConcat(a[1..], b, k);
      var head := if Keeps(k, a[0]) then [a[0]] else [];
      assert Filter(a + b, k) == head + Filter(a[1..] + b, k);
    } else {
      assert a + b == b;
    }
  }

  /** What a filter keeps comes from its input and passes the filter. */
  lemma {:induction false} FilterKept(a: seq<string>, k: Keep)
    ensures forall i :: 0 <= i < |Filter(a, k)| ==> Filter(a, k)[i] in a && Keeps(k, Filter(a, k)[i])
    decreases |a|
  {
    if a != [] {
      FilterKept(a[1..], k);
      var head := if Keeps(k, a[0]) then [a[0]] else [];
      var tail := Filter(a[1..], k);
      forall i | 0 <= i < |Filter(a, k)|
        ensures Filter(a, k)[i] in a && Keeps(k, Filter(a, k)[i])
      {
        if i >= |head| {
          assert Filter(a, k)[i] == tail[i - |head|];
          assert tail[i - |head|] in a[1..];
        }
      }
    }
  }

  lemma {:induction false} FilterKeepsAll(a: seq<string>, k: Keep)
    requires forall i :: 0 <= i < |a| ==> Keeps(k, a[i])
    ensures Filter(a, k) == a
    decreases |a|
  {
    if a != [] {
      FilterKeepsAll(a[1..], k);
    }
  }

  lemma {:induction false} FilterDropsAll(a: seq<string>, k: Keep)
    requires forall i :: 0 <= i < |a| ==> !Keeps(k, a[i])
    ensures Filter(a, k) == []
    decreases |a|
  {
    if a != [] {
      FilterDropsAll(a[1..], k);
    }
  }

  lemma {:induction false} FilterSingle(v: string, k: Keep)
    ensures Filter([v], k) == if Keeps(k, v) then [v] else []
  {
    assert [v][1..] == [];
  }

  // ---------------------------------------------------------------------------------------
  // Properties of getAbsolutePath

  /** Every resolved segment is non-empty and free of `/`. */
  lemma {:induction false} SegmentsWellFormed(wd: string, rel: string)
    ensures forall i :: 0 <= i < |Segments(wd, rel)| ==>
      Segments(wd, rel)[i] != "" && '/' !in Segments(wd, rel)[i]
  {
    var parts := Split(rel);
    var w := Pieces(wd);
    var kept := Pop(w, |Filter(parts, Up)|);
    var clean := Filter(parts, Name);
    var segs := Segments(wd, rel);
    SplitSound(wd);
    SplitSound(rel);
    FilterKept(Split(wd), NonEmpty);
    FilterKept(parts, Name);
    assert forall i :: 0 <= i < |kept| ==> kept[i] == w[i];
    forall i | 0 <= i < |segs| ensures segs[i] != "" && '/' !in segs[i] {
      if i < |kept| {
        assert segs[i] == w[i];
      } else {
        assert segs[i] == clean[i - |kept|];
      }
    }
  }

  /** Writing well-formed segments out and splitting the result again gives them back. */
  lemma {:induction false} RenderPieces(segs: seq<string>)
    requires forall i :: 0 <= i < |segs| ==> segs[i] != "" && '/' !in segs[i]
    ensures var r := Render(segs);
      && |r| >= 1 && r[0] == '/' && r[|r| - 1] == '/'
      && (r == "/" <==> segs == [])
      && Split(r) == (if segs == [] then ["", ""] else [""] + segs + [""])
      && Pieces(r) == segs
  {
    if segs == [] {
      SplitConcat("", "");
      assert Split("/") == ["", ""];
      FilterSingle("", NonEmpty);
      FilterConcat([""], [""], NonEmpty);
    } else {
      JoinNonEmpty(segs);
      var j := Join(segs);
      var r := "/" + j + "/";
      assert r == "" + "/" + (j + "/" + "");
      SplitConcat("", j + "/" + "");
      SplitConcat(j, "");
      SplitJoin(segs);
      assert Split(r) == [""] + segs + [""];
      FilterConcat([""] + segs, [""], NonEmpty);
      FilterConcat([""], segs, NonEmpty);
      FilterSingle("", NonEmpty);
      FilterKeepsAll(segs, NonEmpty);
    }
  }

  /** The canonical path is `/` or starts and ends with `/`, and its own segments (as
      `getDirectory` splits it again) are exactly the resolved segments. */
  lemma {:induction false} AbsolutePathSegments(wd: string, rel: string)
    ensures var r := GetAbsolutePath(wd, rel);
      && |r| >= 1 && r[0] == '/' && r[|r| - 1] == '/'
      && (r == "/" <==> Segments(wd, rel) == [])
      && Pieces(r) == Segments(wd, rel)
  {
    SegmentsWellFormed(wd, rel);
    RenderPieces(Segments(wd, rel));
  }

  /** Resolving `p + "/" + name` goes one segment below resolving `p` when `name` is a plain
      segment: this is what the recursive directory operations rely on. */
  lemma {:induction false} ChildSegments(wd: string, p: string, name: string)
    requires IsAddressable(name)
    ensures Segments(wd, p + "/" + name) == Segments(wd, p) + [name]
  {
    SplitConcat(p, name);
    SplitNoSlash(name);
    var sp := Split(p);
    assert Split(p + "/" + name) == sp + [name];
    FilterConcat(sp, [name], Up);
    FilterConcat(sp, [name], Name);
    FilterSingle(name, Up);
    FilterSingle(name, Name);
    assert Filter(sp + [name], Up) == Filter(sp, Up);
    assert Filter(sp + [name], Name) == Filter(sp, Name) + [name];
    var w := Pop(Pieces(wd), |Filter(sp, Up)|);
    assert w + (Filter(sp, Name) + [name]) == (w + Filter(sp, Name)) + [name];
  }

  /** Moving a `..` to the front of the split pieces changes neither filter's result in a way
      the resolution can see: the `..` count and the plain names are the same. */
  lemma {:induction false} FilterMovesUp(sx: seq<string>, sy: seq<string>)
    ensures |Filter(sx + ([".."] + sy), Up)| == |Filter([".."] + (sx + sy), Up)|
    ensures Filter(sx + ([".."] + sy), Name) == Filter([".."] + (sx + sy), Name)
  {
    FilterConcat(sx, [".."] + sy, Up);
    FilterConcat([".."], sy, Up);
    FilterConcat([".."], sx + sy, Up);
    FilterConcat(sx, sy, Up);
    FilterSingle("..", Up);
    FilterConcat(sx, [".."] + sy, Name);
    FilterConcat([".."], sy, Name);
    FilterConcat([".."], sx + sy, Name);
    FilterConcat(sx, sy, Name);
    FilterSingle("..", Name);
  }

  /** A `..` counts the same wherever it stands in the input: it is not applied positionally. */
  lemma {:induction false} UpCountedGlobally(wd: string, x: string, y: string)
    ensures Segments(wd, x + "/../" + y) == Segments(wd, "../" + x + "/" + y)
  {
    assert x + "/../" + y == x + "/" + (".." + "/" + y);
    assert "../" + x + "/" + y == ".." + "/" + (x + "/" + y);
    SplitConcat(x, ".." + "/" + y);
    SplitConcat("..", y);
    SplitConcat("..", x + "/" + y);
    SplitConcat(x, y);
    SplitNoSlash("..");
    var sx, sy := Split(x), Split(y);
    assert Split(x + "/../" + y) == sx + ([".."] + sy);
    assert Split("../" + x + "/" + y) == [".."] + (sx + sy);
    FilterMovesUp(sx, sy);
  }

  /** The input `/` and the empty input both resolve to the working directory itself: a
      leading `/` does not reset resolution to the root. */
  lemma {:induction false} SlashIsWorkingDirectory(wd: string)
    ensures Segments(wd, "/") == Segments(wd, "") == Pieces(wd)
  {
    SplitConcat("", "");
    assert Split("/") == ["", ""];
    FilterSingle("", Up);
    FilterSingle("", Name);
    FilterConcat([""], [""], Up);
    FilterConcat([""], [""], Name);
  }

  /** A rendered sequence of plain segments resolves, from the root, to those segments. */
  lemma {:induction false} ResolveRendered(segs: seq<string>)
    requires forall i :: 0 <= i < |segs| ==> Keeps(Name, segs[i]) && '/' !in segs[i]
    ensures Segments("/", Render(segs)) == segs
  {
    RenderPieces(segs);
    RenderPieces([]);
    assert Pieces("/") == [];
    var parts := Split(Render(segs));
    if segs == [] {
      FilterDropsAll(parts, Up);
      FilterDropsAll(parts, Name);
    } else {
      FilterConcat([""] + segs, [""], Up);
      FilterConcat([""], segs, Up);
      FilterDropsAll(segs, Up);
      FilterDropsAll([""], Up);
      FilterConcat([""] + segs, [""], Name);
      FilterConcat([""], segs, Name);
      FilterKeepsAll(segs, Name);
      FilterDropsAll([""], Name);
      assert Filter(parts, Name) == segs;
    }
  }

  /** With the root as working directory, resolving a canonical path returns it unchanged. */
  lemma {:induction false} AbsolutePathIdempotentAtRoot(p: string)
    ensures GetAbsolutePath("/", GetAbsolutePath("/", p)) == GetAbsolutePath("/", p)
  {
    RenderPieces([]);
    assert Pieces("/") == [];
    var clean := Filter(Split(p), Name);
    assert Segments("/", p) == clean;
    SplitSound(p);
    FilterKept(Split(p), Name);
    ResolveRendered(clean);
  }

  // ---------------------------------------------------------------------------------------
  // Properties of splitPath

  /** `p + "/" + name` splits into `p` (or `/` when `p` is empty) and `name`. */
  lemma {:induction false} SplitPathOfChild(p: string, name: string)
    requires name != "" && '/' !in name
    ensures SplitPath(p + "/" + name) == Success((if p == "" then "/" else p, Some(name)))
  {
    var path := p + "/" + name;
    assert path[|p|] == '/';
    SplitPathShape(path);
    var r := SplitPath(path);
    var n := r.value.1.value;
    var cut := |path| - |n| - 1;
    assert path[..|p|] == p;
  }

  /** The path the children of a copy are placed under resolves to one segment below the
      destination's parent part: the new directory itself. */
  lemma {:induction false} CopyTargetSegments(wd: string, newPath: string, sourceName: string)
    requires SplitPath(newPath).Success?
    requires IsAddressable(NewName(SplitPath(newPath).value.1, sourceName))
    ensures var (parent, leaf) := SplitPath(newPath).value;
      Segments(wd, CopyTarget(newPath, leaf, sourceName))
        == Segments(wd, parent) + [NewName(leaf, sourceName)]
  {
    var (parent, leaf) := SplitPath(newPath).value;
    var name := NewName(leaf, sourceName);
    var target := CopyTarget(newPath, leaf, sourceName);
    if newPath == "/" {
      assert target == "" + "/" + name;
      ChildSegments(wd, "", name);
      SlashIsWorkingDirectory(wd);
    } else {
      CopyTargetBelow(wd, newPath, sourceName);
    }
  }

  /** The same for a destination other than `/`: the target replaces the destination's leaf. */
  lemma CopyTargetBelow(wd: string, newPath: string, sourceName: string)
    requires SplitPath(newPath).Success? && newPath != "/"
    requires IsAddressable(NewName(SplitPath(newPath).value.1, sourceName))
    ensures var (parent, leaf) := SplitPath(newPath).value;
      Segments(wd, CopyTarget(newPath, leaf, sourceName))
        == Segments(wd, parent) + [NewName(leaf, sourceName)]
  {
    var (parent, leaf) := SplitPath(newPath).value;
    var name := NewName(leaf, sourceName);
    var target := CopyTarget(newPath, leaf, sourceName);
    SplitPathShape(newPath);
    var n := leaf.value;
    var cut := |newPath| - |n| - 1;
    var pre := newPath[..cut];
    assert newPath == pre + "/" + n;
    assert target == pre + "/" + name;
    ChildSegments(wd, pre, name);
    if cut == 0 {
      assert parent == "/" && pre == "";
      SlashIsWorkingDirectory(wd);
    } else {
      assert parent == pre;
    }
  }

  /** The path a copy or a move is found under afterwards splits into the destination's
      parent part and the name the file was given. */
  lemma SplitPathOfCopyTarget(newPath: string, sourceName: string)
    requires SplitPath(newPath).Success?
    requires sourceName != "" && '/' !in sourceName
    ensures var (parent, leaf) := SplitPath(newPath).value;
      SplitPath(CopyTarget(newPath, leaf, sourceName)) == Success((parent, Some(NewName(leaf, sourceName))))
  {
    var (parent, leaf) := SplitPath(newPath).value;
    if leaf.Some? && leaf.value != "" {
    } else if newPath == "/" {
      assert CopyTarget(newPath, leaf, sourceName) == "" + "/" + sourceName;
      SplitPathOfChild("", sourceName);
    } else {
      SplitPathShape(newPath);
      var cut := |newPath| - |leaf.value| - 1;
      var pre := newPath[..cut];
      assert newPath == pre + "/";
      assert CopyTarget(newPath, leaf, sourceName) == pre + "/" + sourceName;
      SplitPathOfChild(pre, sourceName);
    }
  }

  /** Children of two different paths have different paths. */
  lemma ChildPathsDiffer(p: string, q: string, name: string)
    requires p != q
    ensures p + "/" + name != q + "/" + name
  {
    if |p| == |q| {
      assert (p + "/" + name)[..|p|] == p;
      assert (q + "/" + name)[..|q|] == q;
    }
  }

  /** `split("/")` of one character other than `/`. */
  lemma SplitLetter(c: char)
    requires c != '/'
    ensures Split([c]) == [[c]]
  {
    assert [c][1..] == [] && Split([]) == [""];
    assert [c] + "" == [c];
  }
}
