/** POSIX path helpers as Node's `path` module computes them (`join`,
    `dirname`, `basename`, `extname`, `relative`) and `String.prototype.split`
    on the separator. A path is absolute and normalised, so it is kept as the
    sequence of its segments below "/". */
module Paths {
  import opened Base

  /** A segment of a normalised path: what `readdir` can return as a name. */
  predicate IsName(s: string)
  {
    |s| > 0 && !(|s| == 1 && s[0] == '.') && !(|s| == 2 && s[0] == '.' && s[1] == '.') && '/' !in s
  }

  type Name = s: string | IsName(s) witness "a"

  /** An absolute normalised path; `[]` is "/". */
  type Path = seq<Name>

  /** The text of a path, as Node prints it. */
  function PathString(p: Path): string
  {
    "/" + Intercalate(p)
  }

  /** `path.basename(p)`. */
  function Basename(p: Path): string
  {
    if p == [] then "" else p[|p| - 1]
  }

  /** `path.dirname(p)`. */
  function Dirname(p: Path): (d: Path)
    ensures p != [] ==> d + [p[|p| - 1]] == p
    ensures p == [] ==> d == []
  {
    if p == [] then [] else p[..|p| - 1]
  }

  /** Removes a literal, lower-case ".md" suffix from a segment that is longer than the suffix. */
  function StripMd(s: string): string
  {
    if |s| > 3 && s[|s| - 3] == '.' && s[|s| - 2] == 'm' && s[|s| - 1] == 'd' then s[..|s| - 3] else s
  }

  /** `path.basename(p, ".md")` for a path with a directory part. */
  function BasenameMd(p: Path): string
  {
    StripMd(Basename(p))
  }

  /** Index of the last '.' in `s`, or -1. */
  function LastDot(s: string): (k: int)
    ensures -1 <= k < |s|
    ensures k >= 0 ==> s[k] == '.'
    ensures forall j :: k < j < |s| ==> s[j] != '.'
  {
    if s == [] then -1
    else if s[|s| - 1] == '.' then |s| - 1
    else LastDot(s[..|s| - 1])
  }

  /** `path.extname(name)` for a bare file name: the text from the last '.',
      unless that dot is the first character (a dot-file) or the name is "..". */
  function ExtName(name: string): string
  {
    var k := LastDot(name);
    if k <= 0 || name == ".." then "" else name[k..]
  }

  /** `path.extname(name).toLowerCase() === ".md"`, as the source writes it. */
  predicate ExtNameIsMd(name: string)
  {
    Lower(ExtName(name)) == ".md"
  }

  /** The markdown test read off the last three characters. */
  predicate IsMarkdownName(name: string)
  {
    |name| >= 4 && name[|name| - 3] == '.' && (name[|name| - 2] == 'm' || name[|name| - 2] == 'M')
    && (name[|name| - 1] == 'd' || name[|name| - 1] == 'D')
  }

  /** The two tests agree: a name is a note's name exactly when it has at least one
      character before a final ".md" written in any case; ".md" alone is not one. */
  lemma MarkdownNameSuffix(name: string)
    ensures ExtNameIsMd(name) <==> IsMarkdownName(name)
  {
    var n := |name|;
    var k := LastDot(name);
    if ExtNameIsMd(name) {
      assert ExtName(name) == name[k..];
      assert |name[k..]| == 3;
      assert k == n - 3;
      assert Lower(name[k..])[0] == '.' && Lower(name[k..])[1] == 'm' && Lower(name[k..])[2] == 'd';
    }
    if IsMarkdownName(name) {
      assert name[n - 3] == '.';
      assert name[n - 2] != '.' && name[n - 1] != '.';
      assert k == n - 3;
      assert Lower(name[k..]) == ".md";
    }
  }

  /** `s.split("/")`. */
  function Split(s: string): (r: seq<string>)
    ensures |r| >= 1
    ensures forall i :: 0 <= i < |r| ==> '/' !in r[i]
  {
    if s == [] then [""]
    else
      var rest := Split(s[1..]);
      if s[0] == '/' then [""] + rest else [[s[0]] + rest[0]] + rest[1..]
  }

  /** `segs.join("/")`. */
  function Intercalate(segs: seq<string>): string
  {
    if segs == [] then ""
    else if |segs| == 1 then segs[0]
    else segs[0] + "/" + Intercalate(segs[1..])
  }

  lemma {:induction false} SplitNoSlash(a: string)
    requires '/' !in a
    ensures Split(a) == [a]
  {
    if a != [] {
      assert '/' !in a[1..];
      SplitNoSlash(a[1..]);
      assert [a[0]] + a[1..] == a;
    }
  }

  lemma {:induction false} SplitSlash(a: string, b: string)
    requires '/' !in a
    ensures Split(a + "/" + b) == [a] + Split(b)
  {
    if a == [] {
      assert a + "/" + b == "/" + b;
      assert ("/" + b)[1..] == b;
    } else {
      assert (a + "/" + b)[1..] == a[1..] + "/" + b;
      assert '/' !in a[1..];
      SplitSlash(a[1..], b);
      assert [a[0]] + a[1..] == a;
    }
  }

  /** Splitting the joined text gives back the segments, whenever no segment holds a separator. */
  lemma {:induction false} SplitIntercalate(segs: seq<string>)
    requires |segs| >= 1
    requires forall i :: 0 <= i < |segs| ==> '/' !in segs[i]
    ensures Split(Intercalate(segs)) == segs
  {
    if |segs| == 1 {
      SplitNoSlash(segs[0]);
    } else {
      SplitIntercalate(segs[1..]);
      SplitSlash(segs[0], Intercalate(segs[1..]));
      assert [segs[0]] + segs[1..] == segs;
    }
  }

  /** `path.join(p, seg)` for a segment without separators, which is also one step of
      normalisation: "" and "." stay, ".." goes up, a name goes down. */
  function JoinSegment(p: Path, seg: string): Path
    requires '/' !in seg
  {
    if |seg| == 0 || (|seg| == 1 && seg[0] == '.') then p
    else if |seg| == 2 && seg[0] == '.' && seg[1] == '.' then Dirname(p)
    else p + [seg]
  }

  /** Joining a name appends it. */
  lemma JoinSegmentName(p: Path, n: Name)
    ensures JoinSegment(p, n) == p + [n]
  {
  }

  /** Moving the first name of `names` onto `p` leaves `p + names` as it is. */
  lemma AppendHead(p: Path, names: Path)
    requires |names| > 0
    ensures (p + [names[0]]) + names[1..] == p + names
  {
    assert names == [names[0]] + names[1..];
  }

  /** The same, for the first `k` names. */
  lemma AppendHeadSlice(p: Path, names: Path, k: nat)
    requires 0 < k <= |names|
    ensures (p + [names[0]]) + names[1..][..k - 1] == p + names[..k]
  {
    assert names[..k] == [names[0]] + names[1..][..k - 1];
  }

  /** The first `k` names of `q` below its prefix `p`, put back on `p`. */
  lemma SubPathSlice(p: Path, q: Path, k: nat)
    requires p <= q && 0 < k <= |q| - |p|
    ensures q[|p|..][k - 1] == q[|p| + k - 1]
    ensures p + q[|p|..][..k] == q[..|p| + k]
  {
  }

  predicate NoSlashes(segs: seq<string>)
  {
    forall i :: 0 <= i < |segs| ==> '/' !in segs[i]
  }

  function Resolve(p: Path, segs: seq<string>): Path
    requires NoSlashes(segs)
    decreases |segs|
  {
    if segs == [] then p else Resolve(JoinSegment(p, segs[0]), segs[1..])
  }

  /** `path.join(p, s)`: `s` may itself hold separators, "." or "..". */
  function Join(p: Path, s: string): Path
  {
    Resolve(p, Split(s))
  }

  lemma JoinName(p: Path, n: Name)
    ensures Join(p, n) == p + [n]
  {
    SplitNoSlash(n);
    assert JoinSegment(p, n) == p + [n];
    assert [n][1..] == [];
    assert Resolve(p, [n]) == Resolve(p + [n], []);
  }

  lemma JoinSegmentJoin(p: Path, seg: string)
    requires '/' !in seg
    ensures JoinSegment(p, seg) == Join(p, seg)
  {
    SplitNoSlash(seg);
    assert Resolve(p, [seg]) == Resolve(JoinSegment(p, seg), []);
  }

  lemma JoinEmpty(p: Path)
    ensures Join(p, "") == p
  {
    assert Split("") == [""];
    assert [""][1..] == [];
  }

  lemma {:induction false} ResolveAppend(p: Path, a: seq<string>, b: seq<string>)
    requires NoSlashes(a) && NoSlashes(b)
    ensures NoSlashes(a + b)
    ensures Resolve(p, a + b) == Resolve(Resolve(p, a), b)
    decreases |a|
  {
    assert NoSlashes(a + b) by {
      forall i | 0 <= i < |a + b| ensures '/' !in (a + b)[i] {
        if i < |a| { assert (a + b)[i] == a[i]; } else { assert (a + b)[i] == b[i - |a|]; }
      }
    }
    if a != [] {
      assert (a + b)[1..] == a[1..] + b;
      ResolveAppend(JoinSegment(p, a[0]), a[1..], b);
    } else {
      assert a + b == b;
    }
  }

  /** Resolving one more segment is one more join. */
  lemma ResolveSnoc(p: Path, segs: seq<string>, seg: string)
    requires NoSlashes(segs) && '/' !in seg
    ensures NoSlashes(segs + [seg])
    ensures Resolve(p, segs + [seg]) == JoinSegment(Resolve(p, segs), seg)
  {
    ResolveAppend(p, segs, [seg]);
    assert [seg][1..] == [];
  }

  /** A name with ".md" appended is a note's name, and stripping the suffix gives the name back. */
  lemma NoteName(n: Name)
    ensures IsName(n + ".md") && IsMarkdownName(n + ".md") && StripMd(n + ".md") == n
  {
    var s := n + ".md";
    assert s[|s| - 3] == '.' && s[|s| - 2] == 'm' && s[|s| - 1] == 'd';
    assert s[..|s| - 3] == n;
    assert '/' !in s by {
      forall i | 0 <= i < |s| ensures s[i] != '/' {
        if i < |n| { assert s[i] == n[i]; }
      }
    }
  }

  function Ups(n: nat): (r: seq<string>)
    ensures |r| == n && NoSlashes(r)
  {
    seq(n, _ => "..")
  }

  lemma {:induction false} ResolveUps(p: Path, n: nat)
    requires n <= |p|
    ensures Resolve(p, Ups(n)) == p[..|p| - n]
  {
    if n > 0 {
      assert Ups(n)[1..] == Ups(n - 1);
      assert JoinSegment(p, "..") == p[..|p| - 1];
      ResolveUps(p[..|p| - 1], n - 1);
      assert p[..|p| - 1][..|p| - 1 - (n - 1)] == p[..|p| - n];
    }
  }

  lemma {:induction false} ResolveNames(p: Path, names: Path)
    ensures NoSlashes(names)
    ensures Resolve(p, names) == p + names
    decreases |names|
  {
    if names != [] {
      ResolveNames(p + [names[0]], names[1..]);
      assert p + [names[0]] + names[1..] == p + names;
    }
  }

  lemma SlicePrefix(a: Path, b: Path, k: nat)
    requires k <= |b|
    ensures (a + b)[..|a| + k] == a + b[..k]
  {
  }

  /** Slices of segments without separators have none either. */
  lemma NoSlashesSlice(segs: seq<string>, i: nat, j: nat)
    requires NoSlashes(segs) && i <= j <= |segs|
    ensures NoSlashes(segs[i..j]) && NoSlashes(segs[..j]) && NoSlashes(segs[i..])
  {
    assert forall k :: 0 <= k < j - i ==> segs[i..j][k] == segs[i + k];
  }

  lemma NamesNoSlashes(names: Path)
    ensures NoSlashes(names)
  {
  }

  /** Number of leading segments two paths share. */
  function CommonPrefixLength(a: Path, b: Path): (k: nat)
    ensures k <= |a| && k <= |b|
  {
    if |a| == 0 || |b| == 0 || a[0] != b[0] then 0
    else 1 + CommonPrefixLength(a[1..], b[1..])
  }

  /** Both paths start with the same `CommonPrefixLength` segments, and no longer prefix is common. */
  lemma {:induction false} CommonPrefix(a: Path, b: Path)
    ensures var k := CommonPrefixLength(a, b);
      a[..k] == b[..k] && (k < |a| && k < |b| ==> a[k] != b[k])
  {
    if |a| > 0 && |b| > 0 && a[0] == b[0] {
      CommonPrefix(a[1..], b[1..]);
      var k := CommonPrefixLength(a, b);
      assert a[..k] == [a[0]] + a[1..][..k - 1];
      assert b[..k] == [b[0]] + b[1..][..k - 1];
    }
  }

  /** The segments of `path.relative(from, to)`: one ".." per segment of `from`
      below the common prefix, then the rest of `to`. */
  function RelativeSegments(from: Path, to: Path): (r: seq<string>)
    ensures NoSlashes(r)
  {
    var k := CommonPrefixLength(from, to);
    NamesNoSlashes(to[k..]);
    Ups(|from| - k) + to[k..]
  }

  /** `path.relative(from, to)`. */
  function Relative(from: Path, to: Path): string
  {
    Intercalate(RelativeSegments(from, to))
  }

  /** `path.relative(from, to).split(path.sep)`, read off the segments: the split of
      an empty relative path is the single empty part (RelativePartsSplit). */
  function RelativeParts(from: Path, to: Path): (r: seq<string>)
    ensures NoSlashes(r) && r != []
  {
    var segs := RelativeSegments(from, to);
    if segs == [] then [""] else segs
  }

  lemma RelativePartsSplit(from: Path, to: Path)
    ensures RelativeParts(from, to) == Split(Relative(from, to))
  {
    var segs := RelativeSegments(from, to);
    if segs == [] {
      assert Split("") == [""];
    } else {
      SplitIntercalate(segs);
    }
  }

  /** `path.join(from, path.relative(from, to))` is `to` again, for every pair of paths. */
  lemma RelativeRoundTrip(from: Path, to: Path)
    ensures Join(from, Relative(from, to)) == to
  {
    var k := CommonPrefixLength(from, to);
    CommonPrefix(from, to);
    var segs := RelativeSegments(from, to);
    if segs == [] {
      assert from == from[..k] && to == to[..k];
      JoinEmpty(from);
    } else {
      SplitIntercalate(segs);
      ResolveNames(from[..k], to[k..]);
      ResolveAppend(from, Ups(|from| - k), to[k..]);
      ResolveUps(from, |from| - k);
      assert from[..k] + to[k..] == to;
    }
  }

  /** Below the root, the parts are the path's own segments under the root;
      at the root itself they are the single empty part. */
  lemma RelativePartsUnder(root: Path, p: Path)
    requires root <= p
    ensures root == p ==> RelativeParts(root, p) == [""]
    ensures root < p ==> RelativeParts(root, p) == p[|root|..]
  {
    var k := CommonPrefixLength(root, p);
    CommonPrefix(root, p);
    assert k == |root|;
    assert Ups(0) == [];
    var segs := RelativeSegments(root, p);
    assert segs == p[|root|..];
  }

  /** Resolving the parts of the relative path from `from` leads back to `to`. */
  lemma ResolveRelativeParts(from: Path, to: Path)
    ensures Resolve(from, RelativeParts(from, to)) == to
  {
    RelativeRoundTrip(from, to);
    RelativePartsSplit(from, to);
  }
}
