/** The JavaScript built-ins the client leans on, stated as pure functions:
    string truthiness, `String.prototype.trim`, `Array.prototype.slice(0, end)`,
    `filter` followed by `map`, and `Math.floor(Math.random() * n)`. */
module Js {
  import opened Types

  /** The characters `trim` removes: the WhiteSpace and LineTerminator code
      points of ECMA-262 (tab, vertical tab, form feed, space, no-break space,
      byte order mark, the Unicode space separators, LF, CR, LS, PS). */
  predicate IsWhitespace(c: char): (b: bool)
    ensures c < '\U{0080}' ==> (b <==> c == ' ' || '\t' <= c <= '\r')
  {
    || c == '\t' || c == '\U{000B}' || c == '\U{000C}' || c == ' '
    || c == '\U{00A0}' || c == '\U{FEFF}' || c == '\U{1680}'
    || ('\U{2000}' <= c <= '\U{200A}')
    || c == '\U{202F}' || c == '\U{205F}' || c == '\U{3000}'
    || c == '\n' || c == '\r' || c == '\U{2028}' || c == '\U{2029}'
  }

  predicate AllWhitespace(s: string) {
    forall i :: 0 <= i < |s| ==> IsWhitespace(s[i])
  }

  /** Truthiness of a string value: only the empty string is falsy. */
  predicate Truthy(s: string) {
    s != ""
  }

  /** Drops the leading whitespace: the result is the longest suffix that
      does not start with whitespace, and what was dropped is all whitespace. */
  function TrimStart(s: string): (r: string)
    ensures |r| <= |s| && r == s[|s| - |r|..]
    ensures AllWhitespace(s[..|s| - |r|])
    ensures r != "" ==> !IsWhitespace(r[0])
  {
    if s != "" && IsWhitespace(s[0]) then TrimStart(s[1..]) else s
  }

  /** Drops the trailing whitespace, symmetrically to TrimStart. */
  function TrimEnd(s: string): (r: string)
    ensures |r| <= |s| && r == s[..|r|]
    ensures AllWhitespace(s[|r|..])
    ensures r != "" ==> !IsWhitespace(r[|r| - 1])
  {
    if s != "" && IsWhitespace(s[|s| - 1]) then TrimEnd(s[..|s| - 1]) else s
  }

  /** `s.trim()`: empty exactly when `s` holds nothing but whitespace, and
      otherwise bounded by non-whitespace characters on both ends. */
  function Trim(s: string): (r: string)
    ensures r == "" <==> AllWhitespace(s)
    ensures r != "" ==> !IsWhitespace(r[0]) && !IsWhitespace(r[|r| - 1])
  {
    var t := TrimStart(s);
    var r := TrimEnd(t);
    assert r == "" ==> AllWhitespace(s) by {
      if r == "" {
        assert s == s[..|s| - |t|] + t;
        assert t == t[|r|..];
      }
    }
    r
  }

  /** ToIntegerOrInfinity of a finite number: the integer part, truncated
      toward zero. */
  function ToIntegerOrInfinity(x: real): (n: int)
    ensures 0.0 <= x ==> 0 <= n && n as real <= x < n as real + 1.0
    ensures x < 0.0 ==> n <= 0 && n as real - 1.0 < x <= n as real
  {
    if 0.0 <= x then x.Floor else -((-x).Floor)
  }

  /** `s.slice(0, end)`: always a prefix of `s`. For a non-negative `end` it
      is the whole of `s` or exactly as long as the integer part of `end`; a
      negative `end` counts back from the end of `s`. */
  function SliceTo<T>(s: seq<T>, end: real): (r: seq<T>)
    ensures |r| <= |s| && r == s[..|r|]
    ensures 0.0 <= end ==> |r| as real <= end
    ensures 0.0 <= end ==> |r| == |s| || end < |r| as real + 1.0
    ensures end < 0.0 && s != [] ==> |r| < |s|
  {
    var relative := ToIntegerOrInfinity(end);
    var final :=
      if relative < 0 then (if |s| + relative < 0 then 0 else |s| + relative)
      else (if relative < |s| then relative else |s|);
    s[..final]
  }

  /** `Math.floor(u * n)` for a draw `u` of `Math.random()`, which lies in
      [0, 1): an index below `n` whose interval [i/n, (i+1)/n) holds `u`. */
  function ScaledIndex(u: real, n: nat): (i: nat)
    requires 0.0 <= u < 1.0
    ensures n > 0 ==> i < n
    ensures i as real <= u * n as real < i as real + 1.0
  {
    assert 0.0 <= u * n as real <= n as real;
    (u * n as real).Floor
  }

  /** Comparing a quotient with `u` is comparing the dividend with `u`
      scaled back up, for a positive divisor. */
  lemma DivideBelow(a: real, n: real, u: real)
    requires 0.0 < n
    ensures a / n <= u <==> a <= u * n
  {
    var q := a / n;
    assert q * n == a;
    if q <= u {
      assert q * n <= u * n;
    } else {
      assert u * n < q * n;
    }
  }

  lemma DivideAbove(b: real, n: real, u: real)
    requires 0.0 < n
    ensures u < b / n <==> u * n < b
  {
    var q := b / n;
    assert q * n == b;
    if u < q {
      assert u * n < q * n;
    } else {
      assert q * n <= u * n;
    }
  }

  /** `s.filter(x => pick(x) is Some).map(x => pick(x).value)`: the values
      of the picked elements. Nothing is invented and nothing picked is lost. */
  function Collect<A, B(==)>(s: seq<A>, pick: A -> Option<B>): (r: seq<B>)
    ensures |r| <= |s|
    ensures forall i :: 0 <= i < |s| && pick(s[i]).Some? ==> pick(s[i]).value in r
    ensures forall y :: y in r ==> exists i :: 0 <= i < |s| && pick(s[i]) == Some(y)
  {
    if s == [] then []
    else
      var rest := Collect(s[1..], pick);
      match pick(s[0])
      case Some(y) => [y] + rest
      case None => rest
  }

  /** Filtering distributes over concatenation. */
  lemma {:induction false} CollectAppend<A, B>(a: seq<A>, b: seq<A>, pick: A -> Option<B>)
    ensures Collect(a + b, pick) == Collect(a, pick) + Collect(b, pick)
  {
    if a == [] {
      assert a + b == b;
    } else {
      assert (a + b)[1..] == a[1..] + b;
      CollectAppend(a[1..], b, pick);
    }
  }

  /** Nothing picked, nothing kept. */
  lemma {:induction false} CollectNone<A, B>(s: seq<A>, pick: A -> Option<B>)
    requires forall i :: 0 <= i < |s| ==> pick(s[i]).None?
    ensures Collect(s, pick) == []
  {
    if s != [] {
      CollectNone(s[1..], pick);
    }
  }

  /** Everything picked: the result is the element-wise image of `s`. */
  lemma {:induction false} CollectAll<A, B>(s: seq<A>, pick: A -> Option<B>)
    requires forall i :: 0 <= i < |s| ==> pick(s[i]).Some?
    ensures |Collect(s, pick)| == |s|
    ensures forall i :: 0 <= i < |s| ==> Collect(s, pick)[i] == pick(s[i]).value
  {
    if s != [] {
      CollectAll(s[1..], pick);
    }
  }

  /** A picked element `s[i]` lands at the position given by the number of
      picked elements before it. */
  lemma CollectPosition<A, B>(s: seq<A>, i: int, pick: A -> Option<B>)
    requires 0 <= i < |s| && pick(s[i]).Some?
    ensures |Collect(s[..i], pick)| < |Collect(s, pick)|
    ensures Collect(s, pick)[|Collect(s[..i], pick)|] == pick(s[i]).value
  {
    assert s == s[..i] + ([s[i]] + s[i + 1..]);
    CollectAppend(s[..i], [s[i]] + s[i + 1..], pick);
    CollectAppend([s[i]], s[i + 1..], pick);
    assert Collect([s[i]], pick) == [pick(s[i]).value] by {
      assert [s[i]][1..] == [];
    }
  }

  /** The filtered result of a prefix is a prefix of the filtered result, and
      every picked element in between makes it strictly longer. */
  lemma CollectPrefix<A, B>(s: seq<A>, i: int, j: int, pick: A -> Option<B>)
    requires 0 <= i <= j <= |s|
    ensures Collect(s[..i], pick) <= Collect(s[..j], pick)
    ensures i < j && pick(s[i]).Some? ==> |Collect(s[..i], pick)| < |Collect(s[..j], pick)|
  {
    assert s[..j] == s[..i] + s[i..j];
    CollectAppend(s[..i], s[i..j], pick);
    if i < j && pick(s[i]).Some? {
      assert s[i..j] == [s[i]] + s[i + 1..j];
      CollectAppend([s[i]], s[i + 1..j], pick);
      assert Collect([s[i]], pick) == [pick(s[i]).value] by {
        assert [s[i]][1..] == [];
      }
    }
  }
}
