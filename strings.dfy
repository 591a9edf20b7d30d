/** The JavaScript string operations the application relies on
    (`includes`, `join`, `split`, `trim`, `replace(/\n/g, …)`), each with a
    reference definition or an inverse and the lemma that ties the two. */
module Strings {

  // ---------------------------------------------------------------------
  // includes

  /** `t` occurs in `s` at position `i`. */
  ghost predicate OccursAt(s: string, t: string, i: int)
  {
    0 <= i && i + |t| <= |s| && s[i..i + |t|] == t
  }

  /** Reference definition of containment: some position where `t` occurs. */
  ghost predicate Occurs(s: string, t: string)
  {
    exists i :: OccursAt(s, t, i)
  }

  /** `s.includes(t)`: try every start position from the left. */
  function Includes(s: string, t: string): bool
    decreases |s|
  {
    if |t| > |s| then false
    else if s[..|t|] == t then true
    else Includes(s[1..], t)
  }

  lemma OccursAtShift(s: string, t: string, i: int)
    requires |s| > 0 && i >= 1
    ensures OccursAt(s, t, i) <==> OccursAt(s[1..], t, i - 1)
  {
    if 0 <= i - 1 && i - 1 + |t| <= |s| - 1 {
      assert s[1..][i - 1..i - 1 + |t|] == s[i..i + |t|];
    }
  }

  /** The scanning implementation agrees with the reference definition. */
  lemma {:induction false} IncludesCorrect(s: string, t: string)
    ensures Includes(s, t) <==> Occurs(s, t)
    decreases |s|
  {
    if |t| > |s| {
      assert forall i :: !OccursAt(s, t, i);
    } else if s[..|t|] == t {
      assert OccursAt(s, t, 0);
    } else {
      IncludesCorrect(s[1..], t);
      if Occurs(s, t) {
        var i :| OccursAt(s, t, i);
        assert i != 0;
        OccursAtShift(s, t, i);
        assert OccursAt(s[1..], t, i - 1);
      }
      if Occurs(s[1..], t) {
        var j :| OccursAt(s[1..], t, j);
        OccursAtShift(s, t, j + 1);
        assert OccursAt(s, t, j + 1);
      }
    }
  }

  /** A witness position proves containment. */
  lemma IncludesAt(s: string, t: string, i: int)
    requires OccursAt(s, t, i)
    ensures Includes(s, t)
  {
    IncludesCorrect(s, t);
  }

  /** If some character of `t` never appears in `s`, then `t` is not in `s`. */
  lemma NotOccursByChar(s: string, t: string, k: int)
    requires 0 <= k < |t|
    requires forall i :: 0 <= i < |s| ==> s[i] != t[k]
    ensures !Occurs(s, t)
  {
    forall i
      ensures !OccursAt(s, t, i)
    {
      if 0 <= i && i + |t| <= |s| {
        assert s[i..i + |t|][k] == s[i + k];
      }
    }
  }

  /** Both parts of a concatenation are contained in it. */
  lemma IncludesParts(a: string, b: string)
    ensures Includes(a + b, a) && Includes(a + b, b)
  {
    assert (a + b)[0..|a|] == a;
    IncludesAt(a + b, a, 0);
    assert (a + b)[|a|..|a| + |b|] == b;
    IncludesAt(a + b, b, |a|);
  }

  /** Containment is transitive. */
  lemma IncludesTrans(x: string, y: string, z: string)
    requires Includes(x, y) && Includes(y, z)
    ensures Includes(x, z)
  {
    IncludesCorrect(x, y);
    IncludesCorrect(y, z);
    var i :| OccursAt(x, y, i);
    var j :| OccursAt(y, z, j);
    assert x[i..i + |y|] == y;
    forall k | 0 <= k < |z| ensures x[i + j..i + j + |z|][k] == z[k] {
      assert x[i + j..i + j + |z|][k] == x[i + j + k] == x[i..i + |y|][j + k] == y[j + k];
      assert y[j..j + |z|][k] == y[j + k];
    }
    IncludesAt(x, z, i + j);
  }

  /** What a part contains, the whole contains. */
  lemma IncludesInLeft(a: string, b: string, t: string)
    requires Includes(a, t)
    ensures Includes(a + b, t)
  {
    IncludesParts(a, b);
    IncludesTrans(a + b, a, t);
  }

  lemma IncludesInRight(a: string, b: string, t: string)
    requires Includes(b, t)
    ensures Includes(a + b, t)
  {
    IncludesParts(a, b);
    IncludesTrans(a + b, b, t);
  }

  /** The middle part of a concatenation is contained in it. */
  lemma IncludesInfix(a: string, b: string, c: string)
    ensures Includes(a + b + c, b)
  {
    IncludesParts(a, b);
    IncludesInLeft(a + b, c, b);
  }

  // ---------------------------------------------------------------------
  // join and split

  /** `xs.join(sep)`. */
  function Join(xs: seq<string>, sep: string): string
    decreases |xs|
  {
    if |xs| == 0 then ""
    else if |xs| == 1 then xs[0]
    else xs[0] + sep + Join(xs[1..], sep)
  }

  /** `s.split(c)` for a one-character separator: always at least one
      piece, the text between consecutive separators. */
  function Split(s: string, c: char): (pieces: seq<string>)
    ensures |pieces| >= 1
    decreases |s|
  {
    if s == [] then [""]
    else
      var rest := Split(s[1..], c);
      if s[0] == c then [""] + rest
      else [[s[0]] + rest[0]] + rest[1..]
  }

  /** Joining grows at the end: one more element follows the separator. */
  lemma {:induction false} JoinSnoc(xs: seq<string>, x: string, sep: string)
    ensures Join([], sep) == "" && Join([x], sep) == x
    ensures xs != [] ==> Join(xs + [x], sep) == Join(xs, sep) + sep + x
    decreases |xs|
  {
    if |xs| == 1 {
      assert xs + [x] == [xs[0], x];
      assert [xs[0], x][1..] == [x];
    } else if |xs| > 1 {
      JoinSnoc(xs[1..], x, sep);
      assert (xs + [x])[1..] == xs[1..] + [x];
    }
  }

  /** No piece of a split contains the separator. */
  lemma {:induction false} SplitPiecesSeparatorFree(s: string, c: char, k: int)
    requires 0 <= k < |Split(s, c)|
    ensures c !in Split(s, c)[k]
    decreases |s|
  {
    if s != [] {
      if s[0] == c {
        if k > 0 { SplitPiecesSeparatorFree(s[1..], c, k - 1); }
      } else {
        SplitPiecesSeparatorFree(s[1..], c, k);
      }
    }
  }

  /** Joining the pieces of a split with the separator gives back the text. */
  lemma {:induction false} JoinSplit(s: string, c: char)
    ensures Join(Split(s, c), [c]) == s
    decreases |s|
  {
    if s != [] {
      var rest := Split(s[1..], c);
      JoinSplit(s[1..], c);
      if s[0] == c {
        assert Split(s, c) == [""] + rest;
        assert Join([""] + rest, [c]) == "" + [c] + Join(rest, [c]);
      } else {
        var r := [[s[0]] + rest[0]] + rest[1..];
        assert Split(s, c) == r;
        if |rest| == 1 {
          assert Join(r, [c]) == [s[0]] + rest[0];
        } else {
          assert r[1..] == rest[1..];
          assert Join(rest, [c]) == rest[0] + [c] + Join(rest[1..], [c]);
          assert Join(r, [c]) == [s[0]] + rest[0] + [c] + Join(rest[1..], [c]);
        }
      }
    }
  }

  /** Splitting where the first separator follows a separator-free prefix. */
  lemma {:induction false} SplitAtFirst(a: string, c: char, b: string)
    requires forall i :: 0 <= i < |a| ==> a[i] != c
    ensures Split(a + [c] + b, c) == [a] + Split(b, c)
    decreases |a|
  {
    if a == [] {
      assert a + [c] + b == [c] + b;
      assert ([c] + b)[1..] == b;
    } else {
      assert (a + [c] + b)[1..] == a[1..] + [c] + b;
      SplitAtFirst(a[1..], c, b);
      assert [a[0]] + a[1..] == a;
    }
  }

  /** A separator-free text splits into itself alone. */
  lemma {:induction false} SplitNoSeparator(a: string, c: char)
    requires forall i :: 0 <= i < |a| ==> a[i] != c
    ensures Split(a, c) == [a]
    decreases |a|
  {
    if a != [] {
      SplitNoSeparator(a[1..], c);
      assert [a[0]] + a[1..] == a;
    }
  }

  // ---------------------------------------------------------------------
  // concatenating a mapped or filtered sequence

  /** `xs.map(f).join('')`. */
  function ConcatMap<T>(xs: seq<T>, f: T -> string): string
    decreases |xs|
  {
    if xs == [] then "" else f(xs[0]) + ConcatMap(xs[1..], f)
  }

  /** `xs.filter(p)`: the elements satisfying `p`, in their order. */
  function Filter<T>(xs: seq<T>, p: T -> bool): seq<T>
    decreases |xs|
  {
    if xs == [] then []
    else if p(xs[0]) then [xs[0]] + Filter(xs[1..], p)
    else Filter(xs[1..], p)
  }

  /** Mapping a concatenation concatenates the mapped parts, in order. */
  lemma {:induction false} ConcatMapAppend<T>(xs: seq<T>, ys: seq<T>, f: T -> string)
    ensures ConcatMap(xs + ys, f) == ConcatMap(xs, f) + ConcatMap(ys, f)
    decreases |xs|
  {
    if xs != [] {
      assert (xs + ys)[0] == xs[0] && (xs + ys)[1..] == xs[1..] + ys;
      ConcatMapAppend(xs[1..], ys, f);
    } else {
      assert xs + ys == ys;
    }
  }

  /** One more element at the end adds its image at the end. */
  lemma ConcatMapSnoc<T>(xs: seq<T>, x: T, f: T -> string)
    ensures ConcatMap(xs + [x], f) == ConcatMap(xs, f) + f(x)
  {
    ConcatMapAppend(xs, [x], f);
    assert [x][1..] == [];
  }

  /** Elements whose image is empty may as well have been filtered out,
      and the kept ones may be rendered by any `g` that agrees with `f` on
      them. */
  lemma {:induction false} ConcatMapSkipsEmpty<T>(xs: seq<T>, p: T -> bool, f: T -> string, g: T -> string)
    requires forall x :: !p(x) ==> f(x) == ""
    requires forall x :: p(x) ==> f(x) == g(x)
    ensures ConcatMap(xs, f) == ConcatMap(Filter(xs, p), g)
    decreases |xs|
  {
    if xs != [] {
      ConcatMapSkipsEmpty(xs[1..], p, f, g);
      if p(xs[0]) {
        assert ([xs[0]] + Filter(xs[1..], p))[1..] == Filter(xs[1..], p);
      }
    }
  }

  /** The image of each element stands, whole, inside the concatenation. */
  lemma ConcatMapInfix<T>(xs: seq<T>, f: T -> string, i: int)
    requires 0 <= i < |xs|
    ensures exists a, b :: ConcatMap(xs, f) == a + f(xs[i]) + b
  {
    ConcatMapAppend(xs[..i], xs[i..], f);
    assert xs[..i] + xs[i..] == xs;
    assert xs[i..][1..] == xs[i + 1..];
    assert ConcatMap(xs, f) == ConcatMap(xs[..i], f) + f(xs[i]) + ConcatMap(xs[i + 1..], f);
  }

  /** A filter that keeps everything, or nothing. */
  lemma {:induction false} FilterAllOrNone<T>(xs: seq<T>, p: T -> bool)
    ensures (forall i :: 0 <= i < |xs| ==> p(xs[i])) ==> Filter(xs, p) == xs
    ensures (forall i :: 0 <= i < |xs| ==> !p(xs[i])) ==> Filter(xs, p) == []
    decreases |xs|
  {
    if xs != [] {
      FilterAllOrNone(xs[1..], p);
      if forall i :: 0 <= i < |xs| ==> p(xs[i]) {
        assert forall i :: 0 <= i < |xs[1..]| ==> p(xs[1..][i]) by {
          forall i | 0 <= i < |xs[1..]| ensures p(xs[1..][i]) { assert xs[1..][i] == xs[i + 1]; }
        }
        assert [xs[0]] + xs[1..] == xs;
      }
      if forall i :: 0 <= i < |xs| ==> !p(xs[i]) {
        assert forall i :: 0 <= i < |xs[1..]| ==> !p(xs[1..][i]) by {
          forall i | 0 <= i < |xs[1..]| ensures !p(xs[1..][i]) { assert xs[1..][i] == xs[i + 1]; }
        }
      }
    }
  }

  /** Filtering a concatenation filters each part, keeping the order. */
  lemma {:induction false} FilterAppend<T>(xs: seq<T>, ys: seq<T>, p: T -> bool)
    ensures Filter(xs + ys, p) == Filter(xs, p) + Filter(ys, p)
    decreases |xs|
  {
    if xs != [] {
      assert (xs + ys)[0] == xs[0] && (xs + ys)[1..] == xs[1..] + ys;
      FilterAppend(xs[1..], ys, p);
    } else {
      assert xs + ys == ys;
    }
  }

  /** Two complementary filters split a sequence: every element lands in
      exactly one of them. */
  lemma {:induction false} FilterPartition<T>(xs: seq<T>, p: T -> bool, q: T -> bool)
    requires forall x :: q(x) == !p(x)
    ensures multiset(Filter(xs, p)) + multiset(Filter(xs, q)) == multiset(xs)
    ensures |Filter(xs, p)| + |Filter(xs, q)| == |xs|
    decreases |xs|
  {
    if xs != [] {
      FilterPartition(xs[1..], p, q);
      assert xs == [xs[0]] + xs[1..];
    }
  }

  /** Every element of a filter comes from the input and satisfies `p`;
      every input element satisfying `p` is kept. */
  lemma {:induction false} FilterMembers<T>(xs: seq<T>, p: T -> bool, x: T)
    ensures x in Filter(xs, p) <==> x in xs && p(x)
    decreases |xs|
  {
    if xs != [] {
      FilterMembers(xs[1..], p, x);
      assert xs == [xs[0]] + xs[1..];
    }
  }

  // ---------------------------------------------------------------------
  // replace(/\n/g, '<br/>')

  /** Every line feed replaced by `<br/>`, every other character kept. */
  function ReplaceNewlines(s: string): string
    decreases |s|
  {
    if s == [] then ""
    else if s[0] == '\n' then "<br/>" + ReplaceNewlines(s[1..])
    else [s[0]] + ReplaceNewlines(s[1..])
  }

  /** No line feed survives the replacement. */
  lemma {:induction false} ReplaceNewlinesRemovesAll(s: string)
    ensures '\n' !in ReplaceNewlines(s)
    decreases |s|
  {
    if s != [] {
      ReplaceNewlinesRemovesAll(s[1..]);
    }
  }

  /** The replacement works piecewise: it commutes with concatenation. */
  lemma {:induction false} ReplaceNewlinesAppend(a: string, b: string)
    ensures ReplaceNewlines(a + b) == ReplaceNewlines(a) + ReplaceNewlines(b)
    decreases |a|
  {
    if a != [] {
      assert (a + b)[0] == a[0] && (a + b)[1..] == a[1..] + b;
      ReplaceNewlinesAppend(a[1..], b);
    } else {
      assert a + b == b;
    }
  }

  /** Text without line feeds is left exactly as it was. */
  lemma {:induction false} ReplaceNewlinesIdentity(s: string)
    requires '\n' !in s
    ensures ReplaceNewlines(s) == s
    decreases |s|
  {
    if s != [] {
      assert s == [s[0]] + s[1..];
      ReplaceNewlinesIdentity(s[1..]);
    }
  }

  /** The output grows by four characters per line feed. */
  lemma {:induction false} ReplaceNewlinesLength(s: string)
    ensures |ReplaceNewlines(s)| == |s| + 4 * multiset(s)['\n']
    decreases |s|
  {
    if s != [] {
      ReplaceNewlinesLength(s[1..]);
      assert s == [s[0]] + s[1..];
    }
  }

  // ---------------------------------------------------------------------
  // trim

  /** The characters `String.prototype.trim` removes: ECMAScript WhiteSpace
      and LineTerminator code points. */
  predicate IsWhiteSpace(c: char)
  {
    c == ' ' || c == '\t' || c == '\n' || c == '\r' || c == '\U{B}' || c == '\U{C}'
    || c == '\U{A0}' || c == '\U{1680}' || ('\U{2000}' <= c <= '\U{200A}')
    || c == '\U{2028}' || c == '\U{2029}' || c == '\U{202F}' || c == '\U{205F}'
    || c == '\U{3000}' || c == '\U{FEFF}'
  }

  ghost predicate AllWhiteSpace(s: string)
  {
    forall i :: 0 <= i < |s| ==> IsWhiteSpace(s[i])
  }

  function TrimStart(s: string): string
    decreases |s|
  {
    if s != [] && IsWhiteSpace(s[0]) then TrimStart(s[1..]) else s
  }

  function TrimEnd(s: string): string
    decreases |s|
  {
    if s != [] && IsWhiteSpace(s[|s| - 1]) then TrimEnd(s[..|s| - 1]) else s
  }

  /** `s.trim()`. */
  function Trim(s: string): string
  {
    TrimEnd(TrimStart(s))
  }

  lemma {:induction false} TrimStartSplits(s: string)
    ensures exists a :: AllWhiteSpace(a) && s == a + TrimStart(s)
    ensures TrimStart(s) != [] ==> !IsWhiteSpace(TrimStart(s)[0])
    decreases |s|
  {
    if s != [] && IsWhiteSpace(s[0]) {
      TrimStartSplits(s[1..]);
      var a :| AllWhiteSpace(a) && s[1..] == a + TrimStart(s[1..]);
      assert AllWhiteSpace([s[0]] + a);
      assert s == [s[0]] + a + TrimStart(s);
    } else {
      assert AllWhiteSpace([]) && s == [] + s;
    }
  }

  lemma {:induction false} TrimEndSplits(s: string)
    ensures exists b :: AllWhiteSpace(b) && s == TrimEnd(s) + b
    ensures TrimEnd(s) != [] ==> !IsWhiteSpace(TrimEnd(s)[|TrimEnd(s)| - 1])
    decreases |s|
  {
    if s != [] && IsWhiteSpace(s[|s| - 1]) {
      var init := s[..|s| - 1];
      TrimEndSplits(init);
      var b :| AllWhiteSpace(b) && init == TrimEnd(init) + b;
      assert AllWhiteSpace(b + [s[|s| - 1]]);
      assert s == init + [s[|s| - 1]];
      assert s == TrimEnd(s) + (b + [s[|s| - 1]]);
    } else {
      assert AllWhiteSpace([]) && s == s + [];
    }
  }

  /** What `trim` promises: only white space is removed, from both ends, and
      what is left neither starts nor ends with white space. */
  lemma TrimSpec(s: string)
    ensures exists a, b :: AllWhiteSpace(a) && AllWhiteSpace(b) && s == a + Trim(s) + b
    ensures Trim(s) != [] ==> !IsWhiteSpace(Trim(s)[0]) && !IsWhiteSpace(Trim(s)[|Trim(s)| - 1])
    ensures |Trim(s)| <= |s|
  {
    TrimStartSplits(s);
    var a :| AllWhiteSpace(a) && s == a + TrimStart(s);
    var m := TrimStart(s);
    TrimEndSplits(m);
    var b :| AllWhiteSpace(b) && m == TrimEnd(m) + b;
    assert s == a + Trim(s) + b;
    if Trim(s) != [] {
      assert m[0] == Trim(s)[0];
    }
  }
}
