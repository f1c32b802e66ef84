/**
 * Paths: the argument forms a caller may pass (`normalizePath`), splitting on
 * and joining with dots, and wildcard detection.
 */
module Paths {
  import opened Decimal

  /** What a caller may pass as a path. */
  datatype PathArg =
    | Text(s: string)
    | Number(n: int)
    | Flag(b: bool)
    | NullPath
    | UndefinedPath
    | Segments(segs: seq<string>)

  /** Every segment can be spelled between dots. */
  predicate DotFree(segs: seq<string>) {
    forall i :: 0 <= i < |segs| ==> '.' !in segs[i]
  }

  /** `segs.join(".")`. */
  function Join(segs: seq<string>): string {
    if segs == [] then ""
    else if |segs| == 1 then segs[0]
    else segs[0] + "." + Join(segs[1..])
  }

  /** `s.split(".")`: always at least one piece, none of them holding a dot, joining back to `s`. */
  function Split(s: string): (r: seq<string>)
    ensures |r| >= 1 && DotFree(r)
    ensures Join(r) == s
  {
    if s == [] then [""]
    else
      var rest := Split(s[1..]);
      if s[0] == '.' then
        assert Join([""] + rest) == "" + "." + Join(rest) by {
          assert ([""] + rest)[1..] == rest;
        }
        [""] + rest
      else
        var r := [[s[0]] + rest[0]] + rest[1..];
        assert Join(r) == s by {
          if |rest| > 1 {
            assert r[1..] == rest[1..];
            assert Join(rest) == rest[0] + "." + Join(rest[1..]);
          }
          assert s == [s[0]] + s[1..];
        }
        assert DotFree(r) by {
          forall i | 0 <= i < |r| ensures '.' !in r[i] {
            if i > 0 {
              assert r[i] == rest[i];
            }
          }
        }
        r
  }

  /** A dot-free piece splits to itself. */
  lemma {:induction false} SplitDotFree(s: string)
    requires '.' !in s
    ensures Split(s) == [s]
  {
    if s != [] {
      assert '.' !in s[1..] by {
        forall c | c in s[1..] ensures c != '.' {
          assert c in s;
        }
      }
      SplitDotFree(s[1..]);
    }
  }

  /** Splitting a dot-free head, a dot and a tail yields the head followed by the tail's pieces. */
  lemma {:induction false} SplitAfterHead(a: string, b: string)
    requires '.' !in a
    ensures Split(a + "." + b) == [a] + Split(b)
  {
    if a == [] {
      assert a + "." + b == "." + b;
      assert ("." + b)[1..] == b;
    } else {
      assert '.' !in a[1..] by {
        forall c | c in a[1..] ensures c != '.' {
          assert c in a;
        }
      }
      SplitAfterHead(a[1..], b);
      assert (a + "." + b)[1..] == a[1..] + "." + b;
      assert [a[0]] + a[1..] == a;
    }
  }

  /** Joining a non-empty list of dot-free segments and splitting it again gives the list back. */
  lemma {:induction false} SplitJoin(segs: seq<string>)
    requires |segs| >= 1 && DotFree(segs)
    ensures Split(Join(segs)) == segs
  {
    if |segs| == 1 {
      SplitDotFree(segs[0]);
    } else {
      SplitJoin(segs[1..]);
      SplitAfterHead(segs[0], Join(segs[1..]));
    }
  }

  /** Distinct non-empty lists of dot-free segments join to distinct paths. */
  lemma JoinInjective(a: seq<string>, b: seq<string>)
    requires |a| >= 1 && DotFree(a) && |b| >= 1 && DotFree(b)
    requires Join(a) == Join(b)
    ensures a == b
  {
    SplitJoin(a);
    SplitJoin(b);
  }

  /** `normalizePath`: the path as a list of segments. */
  function Normalize(p: PathArg): (r: seq<string>)
    ensures p == Text("") ==> r == []
    ensures p.Text? && p.s != "" ==> |r| >= 1 && DotFree(r) && Join(r) == p.s
    ensures p == NullPath ==> r == ["null"]
    ensures p == UndefinedPath ==> r == ["undefined"]
    ensures p.Flag? ==> r == [if p.b then "true" else "false"]
    ensures p.Number? ==> r == [IntToString(p.n)]
    ensures p.Segments? ==> r == p.segs
  {
    match p
    case Text(s) => if s == "" then [] else Split(s)
    case NullPath => ["null"]
    case UndefinedPath => ["undefined"]
    case Flag(b) => [if b then "true" else "false"]
    case Number(n) => [IntToString(n)]
    case Segments(segs) => segs
  }

  /**
   * `null`, `undefined`, booleans and numbers are turned into their string
   * `w` and split like any other string; none of those strings holds a dot,
   * so each gives the single segment `w`.
   */
  lemma NormalizeWord(p: PathArg, w: string)
    requires || (p.NullPath? && w == "null")
             || (p.UndefinedPath? && w == "undefined")
             || (p.Flag? && w == if p.b then "true" else "false")
             || (p.Number? && w == IntToString(p.n))
    ensures Normalize(p) == Split(w)
  {
    SplitDotFree(w);
  }

  /** A textual path spelling a list of dot-free segments normalises to exactly that list. */
  lemma NormalizeJoin(segs: seq<string>)
    requires DotFree(segs) && segs != [""]
    ensures Normalize(Text(Join(segs))) == segs
  {
    if segs != [] {
      SplitJoin(segs);
    }
  }

  /** `isWildcard`. */
  predicate IsWildcard(seg: string) {
    seg == "*"
  }

  /** `path.indexOf('*')`: the first wildcard position, or -1. */
  function IndexOfWildcard(path: seq<string>): (r: int)
    ensures -1 <= r < |path|
    ensures r == -1 <==> forall i :: 0 <= i < |path| ==> !IsWildcard(path[i])
    ensures r >= 0 ==> IsWildcard(path[r]) && forall i :: 0 <= i < r ==> !IsWildcard(path[i])
  {
    if path == [] then -1
    else if IsWildcard(path[0]) then 0
    else
      var r := IndexOfWildcard(path[1..]);
      assert forall i :: 1 <= i < |path| ==> path[i] == path[1..][i - 1];
      if r == -1 then -1 else r + 1
  }

  /** `containsWildcard`. */
  function ContainsWildcard(path: seq<string>): (r: bool)
    ensures r <==> exists i :: 0 <= i < |path| && IsWildcard(path[i])
  {
    IndexOfWildcard(path) != -1
  }
}
