/** The JavaScript string operations the component relies on, over `seq<char>`. */
module Text {

  /** `s.startsWith(p)`. */
  predicate StartsWith(s: string, p: string) {
    |p| <= |s| && s[..|p|] == p
  }

  /** `p` occurs in `s` starting at index `i`. */
  predicate OccursAt(s: string, p: string, i: nat) {
    i + |p| <= |s| && s[i..i + |p|] == p
  }

  /** `s.includes(p)`. */
  predicate Contains(s: string, p: string) {
    exists i: nat | i <= |s| :: OccursAt(s, p, i)
  }

  /** The characters `String.prototype.trim` removes: ECMAScript's WhiteSpace
      (tab, vertical tab, form feed, space, no-break space, byte order mark and the
      space separators) and LineTerminator (line feed, carriage return, line and
      paragraph separators). */
  predicate IsWhitespace(c: char) {
    c == '\t' || c == '\n' || c == '\U{000B}' || c == '\U{000C}' || c == '\r' || c == ' '
    || c == '\U{00A0}' || c == '\U{1680}' || ('\U{2000}' <= c <= '\U{200A}')
    || c == '\U{2028}' || c == '\U{2029}' || c == '\U{202F}' || c == '\U{205F}'
    || c == '\U{3000}' || c == '\U{FEFF}'
  }

  /** Every character of `s` is whitespace (the empty string included). */
  predicate IsBlank(s: string) {
    forall i :: 0 <= i < |s| ==> IsWhitespace(s[i])
  }

  /** An occurrence stays put when text is appended. */
  lemma OccursExtend(s: string, x: string, i: nat, y: string)
    requires OccursAt(s, x, i)
    ensures OccursAt(s + y, x, i)
  {
    assert (s + y)[i..i + |x|] == s[i..i + |x|];
  }

  /** The last three parts of a concatenation occur together at its end. */
  lemma OccursAtEnd(w: string, a: string, b: string, c: string)
    ensures OccursAt(w + a + b + c, a + b + c, |w|)
  {
    assert w + a + b + c == w + (a + b + c);
  }

  /** `s.trimStart()`: the suffix left after dropping leading whitespace. */
  function TrimStart(s: string): (r: string)
    ensures |r| <= |s| && r == s[|s| - |r|..]
    ensures IsBlank(s[..|s| - |r|])
    ensures r != "" ==> !IsWhitespace(r[0])
  {
    if |s| > 0 && IsWhitespace(s[0]) then
      var r := TrimStart(s[1..]);
      assert s[..|s| - |r|] == [s[0]] + s[1..][..|s| - 1 - |r|];
      r
    else s
  }

  /** `s.trimEnd()`: the prefix left after dropping trailing whitespace. */
  function TrimEnd(s: string): (r: string)
    ensures |r| <= |s| && r == s[..|r|]
    ensures IsBlank(s[|r|..])
    ensures r != "" ==> !IsWhitespace(r[|r| - 1])
  {
    if |s| > 0 && IsWhitespace(s[|s| - 1]) then
      var r := TrimEnd(s[..|s| - 1]);
      assert s[|r|..] == s[..|s| - 1][|r|..] + [s[|s| - 1]];
      r
    else s
  }

  /** `s.trim()`; it is empty exactly when `s` is blank. */
  function Trim(s: string): (r: string)
    ensures |r| <= |s|
    ensures r == "" <==> IsBlank(s)
  {
    var t := TrimStart(s);
    assert t != "" ==> !IsBlank(s) by {
      if t != "" {
        assert s[|s| - |t|] == t[0];
      }
    }
    TrimEndEmptyIffBlank(t);
    TrimEnd(t)
  }

  lemma TrimEndEmptyIffBlank(s: string)
    ensures TrimEnd(s) == "" <==> IsBlank(s)
  {
    var r := TrimEnd(s);
    if r == "" {
      assert s[|r|..] == s;
    }
  }

  /** `s.split(sep)` for a non-empty separator: the pieces between the
      non-overlapping occurrences of `sep`, found from the left. */
  function Split(s: string, sep: string): (parts: seq<string>)
    requires |sep| > 0
    ensures |parts| >= 1
    decreases |s|
  {
    if |s| < |sep| then [s]
    else if s[..|sep|] == sep then [""] + Split(s[|sep|..], sep)
    else
      var rest := Split(s[1..], sep);
      [[s[0]] + rest[0]] + rest[1..]
  }

  /** A string in which the separator's first character never occurs is one piece. */
  lemma {:induction false} SplitWhole(a: string, sep: string)
    requires |sep| > 0
    requires forall j :: 0 <= j < |a| ==> a[j] != sep[0]
    ensures Split(a, sep) == [a]
    decreases |a|
  {
    if |a| >= |sep| {
      assert a[..|sep|][0] != sep[0];
      SplitWhole(a[1..], sep);
      assert [a[0]] + a[1..] == a;
    }
  }

  /** A piece free of the separator's first character, followed by the separator,
      is split off as the first piece. */
  lemma {:induction false} SplitAfterPiece(a: string, sep: string, rest: string)
    requires |sep| > 0
    requires forall j :: 0 <= j < |a| ==> a[j] != sep[0]
    ensures Split(a + sep + rest, sep) == [a] + Split(rest, sep)
    decreases |a|
  {
    var s := a + sep + rest;
    if |a| == 0 {
      assert s[..|sep|] == sep;
      assert s[|sep|..] == rest;
    } else {
      assert s[..|sep|][0] == a[0];
      assert s[1..] == a[1..] + sep + rest;
      SplitAfterPiece(a[1..], sep, rest);
      assert [a[0]] + a[1..] == a;
    }
  }

  /** `parts.join(sep)`; the empty array joins to the empty string. */
  function Join(parts: seq<string>, sep: string): string {
    if |parts| == 0 then ""
    else if |parts| == 1 then parts[0]
    else parts[0] + sep + Join(parts[1..], sep)
  }

  lemma JoinCons(x: string, rest: seq<string>, sep: string)
    requires |rest| >= 1
    ensures Join([x] + rest, sep) == x + sep + Join(rest, sep)
  {
    assert ([x] + rest)[1..] == rest;
  }

  /** Prepending `c` to the first piece prepends it to the join. */
  lemma JoinExtendFirst(c: string, parts: seq<string>, sep: string)
    requires |parts| >= 1
    ensures Join([c + parts[0]] + parts[1..], sep) == c + Join(parts, sep)
  {
    if |parts| > 1 {
      JoinCons(c + parts[0], parts[1..], sep);
      JoinCons(parts[0], parts[1..], sep);
      assert parts == [parts[0]] + parts[1..];
    }
  }

  /** Joining the pieces of a split with the same separator gives back the string. */
  lemma {:induction false} JoinSplit(s: string, sep: string)
    requires |sep| > 0
    ensures Join(Split(s, sep), sep) == s
    decreases |s|
  {
    if |s| < |sep| {
    } else if s[..|sep|] == sep {
      var rest := Split(s[|sep|..], sep);
      calc {
        Join(Split(s, sep), sep);
      ==
        Join([""] + rest, sep);
      == { JoinCons("", rest, sep); }
        "" + sep + Join(rest, sep);
      == { JoinSplit(s[|sep|..], sep); }
        "" + sep + s[|sep|..];
      == { assert s == s[..|sep|] + s[|sep|..]; }
        s;
      }
    } else {
      var rest := Split(s[1..], sep);
      calc {
        Join(Split(s, sep), sep);
      ==
        Join([[s[0]] + rest[0]] + rest[1..], sep);
      == { JoinExtendFirst([s[0]], rest, sep); }
        [s[0]] + Join(rest, sep);
      == { JoinSplit(s[1..], sep); }
        [s[0]] + s[1..];
      ==
        s;
      }
    }
  }

  lemma {:induction false} SplitFirstIsPrefix(s: string, sep: string)
    requires |sep| > 0
    ensures StartsWith(s, Split(s, sep)[0])
    decreases |s|
  {
    if |s| < |sep| {
    } else if s[..|sep|] == sep {
    } else {
      SplitFirstIsPrefix(s[1..], sep);
    }
  }

  /** When a split has more than one piece, the string opens with the first piece
      followed by the separator. */
  lemma {:induction false} SplitFirstThenSeparator(s: string, sep: string)
    requires |sep| > 0 && |Split(s, sep)| > 1
    ensures StartsWith(s, Split(s, sep)[0] + sep)
    decreases |s|
  {
    if s[..|sep|] == sep {
      assert Split(s, sep)[0] + sep == sep;
    } else {
      var rest := Split(s[1..], sep);
      SplitFirstThenSeparator(s[1..], sep);
      assert Split(s, sep)[0] + sep == [s[0]] + (rest[0] + sep);
    }
  }

  /** The separator does not occur in `piece + sep` before the occurrence that
      ends it: the cut after `piece` is made at the first occurrence. */
  predicate CutAtFirst(piece: string, sep: string)
    requires |sep| > 0
  {
    !Contains((piece + sep)[..|piece| + |sep| - 1], sep)
  }

  /** A cut right at the start of `piece + sep` is at the first occurrence. */
  lemma CutAtFirstEmpty(sep: string)
    requires |sep| > 0
    ensures CutAtFirst("", sep)
  {
    var w := ("" + sep)[..|sep| - 1];
    assert forall i: nat :: !OccursAt(w, sep, i);
  }

  /** A cut at the first occurrence stays one when a character is prepended that
      does not start an occurrence of its own. */
  lemma CutAtFirstPrepend(c: char, piece: string, sep: string)
    requires |sep| > 0 && CutAtFirst(piece, sep)
    requires !StartsWith([c] + piece + sep, sep)
    ensures CutAtFirst([c] + piece, sep)
  {
    var v := (piece + sep)[..|piece| + |sep| - 1];
    var w := ([c] + piece + sep)[..|piece| + |sep|];
    assert w == [c] + v;
    forall i: nat | OccursAt(w, sep, i)
      ensures false
    {
      if i > 0 {
        assert w[i..i + |sep|] == v[i - 1..i - 1 + |sep|];
        assert OccursAt(v, sep, i - 1);
      }
    }
  }

  /** Every cut of a split is made at the leftmost occurrence of the separator
      after the previous cut. With `JoinSplit` and `SplitPartsLackSeparator`, this
      determines the pieces. */
  lemma {:induction false} SplitCutsLeftmost(s: string, sep: string)
    requires |sep| > 0
    ensures forall k :: 0 <= k < |Split(s, sep)| - 1 ==> CutAtFirst(Split(s, sep)[k], sep)
    decreases |s|
  {
    var parts := Split(s, sep);
    if |s| < |sep| {
    } else if s[..|sep|] == sep {
      SplitCutsLeftmost(s[|sep|..], sep);
      var rest := Split(s[|sep|..], sep);
      assert forall k :: 1 <= k < |parts| ==> parts[k] == rest[k - 1];
      CutAtFirstEmpty(sep);
    } else {
      SplitCutsLeftmost(s[1..], sep);
      var rest := Split(s[1..], sep);
      assert forall k :: 1 <= k < |parts| ==> parts[k] == rest[k];
      if |parts| > 1 {
        SplitFirstThenSeparator(s[1..], sep);
        var whole := [s[0]] + rest[0] + sep;
        assert s[..|whole|] == whole;
        assert whole[..|sep|] == s[..|sep|];
        CutAtFirstPrepend(s[0], rest[0], sep);
      }
    }
  }

  /** Three newlines split on a blank line: the cut is at the first two. */
  lemma SplitThreeNewlines()
    ensures Split("\n\n\n", "\n\n") == ["", "\n"]
  {
    var s := "\n\n\n";
    assert s[..2] == "\n\n";
    assert s[2..] == "\n";
  }

  /** No piece of a split contains the separator. */
  lemma {:induction false} SplitPartsLackSeparator(s: string, sep: string)
    requires |sep| > 0
    ensures forall k :: 0 <= k < |Split(s, sep)| ==> !Contains(Split(s, sep)[k], sep)
    decreases |s|
  {
    var parts := Split(s, sep);
    if |s| < |sep| {
      assert forall i: nat :: !OccursAt(s, sep, i);
    } else if s[..|sep|] == sep {
      SplitPartsLackSeparator(s[|sep|..], sep);
      var rest := Split(s[|sep|..], sep);
      assert forall i: nat :: !OccursAt("", sep, i);
      assert forall k :: 1 <= k < |parts| ==> parts[k] == rest[k - 1];
    } else {
      SplitPartsLackSeparator(s[1..], sep);
      SplitFirstIsPrefix(s[1..], sep);
      var rest := Split(s[1..], sep);
      var first := [s[0]] + rest[0];
      assert forall k :: 1 <= k < |parts| ==> parts[k] == rest[k];
      forall i: nat | OccursAt(first, sep, i)
        ensures false
      {
        if i > 0 {
          assert first[i..i + |sep|] == rest[0][i - 1..i - 1 + |sep|];
          assert OccursAt(rest[0], sep, i - 1);
        }
      }
    }
  }

  /** The concatenation of a sequence of strings, in order. */
  function Concat(fs: seq<string>): string {
    if |fs| == 0 then "" else fs[0] + Concat(fs[1..])
  }

  lemma ConcatSingle(x: string)
    ensures Concat([x]) == x
  {
    assert [x][1..] == [];
  }

  lemma {:induction false} ConcatAppend(a: seq<string>, b: seq<string>)
    ensures Concat(a + b) == Concat(a) + Concat(b)
  {
    if |a| == 0 {
      assert a + b == b;
    } else {
      calc {
        Concat(a + b);
      == { assert (a + b)[0] == a[0]; assert (a + b)[1..] == a[1..] + b; }
        a[0] + Concat(a[1..] + b);
      == { ConcatAppend(a[1..], b); }
        a[0] + (Concat(a[1..]) + Concat(b));
      ==
        (a[0] + Concat(a[1..])) + Concat(b);
      }
    }
  }

  /** Concatenating more of the same sequence only extends the result. */
  lemma ConcatPrefixGrows(fs: seq<string>, i: nat, j: nat)
    requires i <= j <= |fs|
    ensures StartsWith(Concat(fs[..j]), Concat(fs[..i]))
  {
    assert fs[..j] == fs[..i] + fs[i..j];
    ConcatAppend(fs[..i], fs[i..j]);
  }

  /** The texts `f` gives the elements of `xs`, appended one after another from the
      first element to the last. */
  function ConcatMap<T>(xs: seq<T>, f: T -> string): string {
    if |xs| == 0 then "" else ConcatMap(xs[..|xs| - 1], f) + f(xs[|xs| - 1])
  }

  lemma ConcatMapSingle<T>(x: T, f: T -> string)
    ensures ConcatMap([x], f) == f(x)
  {
    assert [x][..0] == [];
  }

  lemma {:induction false} ConcatMapAppend<T>(a: seq<T>, b: seq<T>, f: T -> string)
    ensures ConcatMap(a + b, f) == ConcatMap(a, f) + ConcatMap(b, f)
    decreases |b|
  {
    if |b| == 0 {
      assert a + b == a;
    } else {
      var n := |b| - 1;
      calc {
        ConcatMap(a + b, f);
      == { assert (a + b)[..|a + b| - 1] == a + b[..n]; assert (a + b)[|a + b| - 1] == b[n]; }
        ConcatMap(a + b[..n], f) + f(b[n]);
      == { ConcatMapAppend(a, b[..n], f); }
        (ConcatMap(a, f) + ConcatMap(b[..n], f)) + f(b[n]);
      ==
        ConcatMap(a, f) + (ConcatMap(b[..n], f) + f(b[n]));
      }
    }
  }

  /** The sequences `f` gives the elements of `xs`, joined end to end. */
  function FlatMap<T>(xs: seq<T>, f: T -> seq<string>): seq<string> {
    if |xs| == 0 then [] else f(xs[0]) + FlatMap(xs[1..], f)
  }

  /** Appending each element's text is concatenating all elements' pieces, when
      each element's text is the concatenation of its pieces. */
  lemma {:induction false} ConcatMapFlatMap<T>(xs: seq<T>, f: T -> string, g: T -> seq<string>)
    requires forall x :: f(x) == Concat(g(x))
    ensures ConcatMap(xs, f) == Concat(FlatMap(xs, g))
    decreases |xs|
  {
    if |xs| > 0 {
      calc {
        ConcatMap(xs, f);
      == { assert xs == [xs[0]] + xs[1..]; ConcatMapAppend([xs[0]], xs[1..], f); }
        ConcatMap([xs[0]], f) + ConcatMap(xs[1..], f);
      == { ConcatMapSingle(xs[0], f); ConcatMapFlatMap(xs[1..], f, g); }
        Concat(g(xs[0])) + Concat(FlatMap(xs[1..], g));
      == { ConcatAppend(g(xs[0]), FlatMap(xs[1..], g)); }
        Concat(FlatMap(xs, g));
      }
    }
  }

  /** `xs.filter(keep)`. */
  function Filter<T>(xs: seq<T>, keep: T -> bool): (r: seq<T>)
    ensures |r| <= |xs|
  {
    if |xs| == 0 then [] else (if keep(xs[0]) then [xs[0]] else []) + Filter(xs[1..], keep)
  }

  lemma FilterSingle<T>(x: T, keep: T -> bool)
    ensures Filter([x], keep) == if keep(x) then [x] else []
  {
    assert [x][1..] == [];
  }

  /** Filtering works element by element: filtering two runs gives the two
      filtered runs in order. */
  lemma {:induction false} FilterAppend<T>(a: seq<T>, b: seq<T>, keep: T -> bool)
    ensures Filter(a + b, keep) == Filter(a, keep) + Filter(b, keep)
  {
    if |a| == 0 {
      assert a + b == b;
    } else {
      var head := if keep(a[0]) then [a[0]] else [];
      calc {
        Filter(a + b, keep);
      == { assert (a + b)[0] == a[0]; assert (a + b)[1..] == a[1..] + b; }
        head + Filter(a[1..] + b, keep);
      == { FilterAppend(a[1..], b, keep); }
        head + (Filter(a[1..], keep) + Filter(b, keep));
      ==
        (head + Filter(a[1..], keep)) + Filter(b, keep);
      }
    }
  }

  /** The filter keeps only elements that pass, each one taken from its input. */
  lemma {:induction false} FilterKeeps<T>(xs: seq<T>, keep: T -> bool)
    ensures forall k :: 0 <= k < |Filter(xs, keep)| ==> keep(Filter(xs, keep)[k]) && Filter(xs, keep)[k] in xs
  {
    if |xs| > 0 {
      FilterKeeps(xs[1..], keep);
      var head := if keep(xs[0]) then [xs[0]] else [];
      var rest := Filter(xs[1..], keep);
      assert Filter(xs, keep) == head + rest;
      forall k | 0 <= k < |head + rest|
        ensures keep((head + rest)[k]) && (head + rest)[k] in xs
      {
        if k >= |head| {
          assert (head + rest)[k] == rest[k - |head|];
          assert rest[k - |head|] in xs[1..];
        }
      }
    }
  }
}
