/** The order QMap and QJsonObject keep their string keys in (QString operator<), and
    the key-ordered enumeration that QMap::values() and QJsonObject::keys() give. */
module StringOrder {

  /** The UTF-16 code units of a character: the character itself below U+10000, a
      surrogate pair above it. */
  function Units(c: char): (r: seq<int>)
    ensures |r| == 1 <==> c as int < 0x10000
    ensures |r| == 1 || |r| == 2
    ensures |r| == 1 ==> r[0] == c as int && (r[0] < 0xD800 || 0xE000 <= r[0] < 0x10000)
    ensures |r| == 2 ==> 0xD800 <= r[0] < 0xDC00 && 0xDC00 <= r[1] < 0xE000
  {
    var v := c as int;
    if v < 0x10000 then [v] else [0xD800 + (v - 0x10000) / 0x400, 0xDC00 + (v - 0x10000) % 0x400]
  }

  /** A string as QString stores it: its characters' code units, in order. */
  function Utf16(s: string): seq<int>
    decreases |s|
  {
    if |s| == 0 then [] else Units(s[0]) + Utf16(s[1..])
  }

  /** Lexicographic order on code units; a proper prefix is smaller. */
  predicate UnitsBelow(a: seq<int>, b: seq<int>)
    decreases |a|
  {
    if |a| == 0 then |b| > 0
    else if |b| == 0 then false
    else if a[0] != b[0] then a[0] < b[0]
    else UnitsBelow(a[1..], b[1..])
  }

  /** QString operator<: lexicographic by UTF-16 code unit, so a character above
      U+FFFF, whose first unit is a surrogate, sorts below one in U+E000..U+FFFF. */
  predicate Below(a: string, b: string)
  {
    UnitsBelow(Utf16(a), Utf16(b))
  }

  /** "\U{1F600}" is below "\U{FF21}" in QString order, although its code point is larger. */
  lemma AstralBelowFullwidth()
    ensures Below("\U{1F600}", "\U{FF21}")
    ensures '\U{1F600}' as int > '\U{FF21}' as int
  {
    assert Utf16("\U{1F600}") == [0xD83D, 0xDE00] by {
      assert "\U{1F600}"[1..] == "";
    }
    assert Utf16("\U{FF21}") == [0xFF21] by {
      assert "\U{FF21}"[1..] == "";
    }
  }

  /** Distinct characters have distinct code units, and neither's units are a proper
      prefix of the other's. */
  lemma UnitsInjective(c: char, d: char, rest: seq<int>, rest': seq<int>)
    requires Units(c) + rest == Units(d) + rest'
    ensures c == d && rest == rest'
  {
    var u, w := Units(c), Units(d);
    assert (u + rest)[0] == u[0] && (w + rest')[0] == w[0];
    if |u| == 2 {
      assert (u + rest)[1] == u[1] && (w + rest')[1] == w[1];
    }
    assert |u| == |w|;
    assert u == (u + rest)[..|u|] && w == (w + rest')[..|w|];
    assert rest == (u + rest)[|u|..] && rest' == (w + rest')[|w|..];
    var v, x := c as int, d as int;
    if |u| == 2 {
      assert (v - 0x10000) / 0x400 == (x - 0x10000) / 0x400;
      assert (v - 0x10000) % 0x400 == (x - 0x10000) % 0x400;
      assert v == x;
    }
  }

  /** The encoding is injective: distinct strings have distinct code units. */
  lemma {:induction false} Utf16Injective(a: string, b: string)
    requires Utf16(a) == Utf16(b)
    ensures a == b
    decreases |a|
  {
    if |a| > 0 && |b| > 0 {
      UnitsInjective(a[0], b[0], Utf16(a[1..]), Utf16(b[1..]));
      Utf16Injective(a[1..], b[1..]);
      assert a == [a[0]] + a[1..] && b == [b[0]] + b[1..];
    }
  }

  lemma {:induction false} UnitsBelowIrreflexive(a: seq<int>)
    ensures !UnitsBelow(a, a)
    decreases |a|
  {
    if |a| > 0 {
      UnitsBelowIrreflexive(a[1..]);
    }
  }

  lemma {:induction false} UnitsBelowTransitive(a: seq<int>, b: seq<int>, c: seq<int>)
    requires UnitsBelow(a, b) && UnitsBelow(b, c)
    ensures UnitsBelow(a, c)
    decreases |a|
  {
    if |a| > 0 && a[0] == b[0] && b[0] == c[0] {
      UnitsBelowTransitive(a[1..], b[1..], c[1..]);
    }
  }

  lemma {:induction false} UnitsBelowTotal(a: seq<int>, b: seq<int>)
    requires a != b
    ensures UnitsBelow(a, b) || UnitsBelow(b, a)
    decreases |a|
  {
    if |a| > 0 && |b| > 0 && a[0] == b[0] {
      assert a == [a[0]] + a[1..] && b == [b[0]] + b[1..];
      UnitsBelowTotal(a[1..], b[1..]);
    }
  }

  lemma BelowIrreflexive(a: string)
    ensures !Below(a, a)
  {
    UnitsBelowIrreflexive(Utf16(a));
  }

  lemma BelowTransitive(a: string, b: string, c: string)
    requires Below(a, b) && Below(b, c)
    ensures Below(a, c)
  {
    UnitsBelowTransitive(Utf16(a), Utf16(b), Utf16(c));
  }

  lemma BelowTotal(a: string, b: string)
    requires a != b
    ensures Below(a, b) || Below(b, a)
  {
    if Utf16(a) == Utf16(b) {
      Utf16Injective(a, b);
    }
    UnitsBelowTotal(Utf16(a), Utf16(b));
  }

  lemma BelowAsymmetric(a: string, b: string)
    requires Below(a, b)
    ensures !Below(b, a)
  {
    if Below(b, a) {
      BelowTransitive(a, b, a);
      BelowIrreflexive(a);
    }
  }

  /** Strictly increasing in QString order, hence without repetitions. */
  ghost predicate StrictlySorted(xs: seq<string>)
  {
    forall i, j :: 0 <= i < j < |xs| ==> Below(xs[i], xs[j])
  }

  lemma StrictlySortedDistinct(xs: seq<string>, i: int, j: int)
    requires StrictlySorted(xs)
    requires 0 <= i < |xs| && 0 <= j < |xs| && i != j
    ensures xs[i] != xs[j]
  {
    if i < j { BelowIrreflexive(xs[i]); } else { BelowIrreflexive(xs[j]); }
  }

  /** Two strictly sorted sequences over the same elements are the same sequence:
      the key-ordered enumeration of a set is unique. */
  lemma {:induction false} StrictlySortedUnique(xs: seq<string>, ys: seq<string>)
    requires StrictlySorted(xs) && StrictlySorted(ys)
    requires forall x :: x in xs <==> x in ys
    ensures xs == ys
    decreases |xs|
  {
    assert |xs| > 0 ==> xs[0] in ys;
    assert |ys| > 0 ==> ys[0] in xs;
    if |xs| > 0 && |ys| > 0 {
      if xs[0] != ys[0] {
        // each head occurs later in the other sequence, so each is below the other
        assert xs[0] in ys && ys[0] in xs;
        var l :| 0 <= l < |xs| && xs[l] == ys[0];
        var k :| 0 <= k < |ys| && ys[k] == xs[0];
        BelowAsymmetric(xs[0], xs[l]);
      }
      forall x
        ensures x in xs[1..] <==> x in ys[1..]
      {
        if x in xs[1..] {
          var k :| 1 <= k < |xs| && xs[k] == x;
          StrictlySortedDistinct(xs, 0, k);
          assert x in ys;
        }
        if x in ys[1..] {
          var k :| 1 <= k < |ys| && ys[k] == x;
          StrictlySortedDistinct(ys, 0, k);
          assert x in xs;
        }
      }
      StrictlySortedUnique(xs[1..], ys[1..]);
    }
  }

  /** The least element of a non-empty set of strings. */
  method LeastOf(s: set<string>) returns (m: string)
    requires s != {}
    ensures m in s
    ensures forall x :: x in s && x != m ==> Below(m, x)
  {
    m :| m in s;
    var rest := s - {m};
    while rest != {}
      invariant rest <= s && m in s && m !in rest
      invariant forall x :: x in s && x !in rest && x != m ==> Below(m, x)
      decreases |rest|
    {
      var x :| x in rest;
      if Below(x, m) {
        forall y | y in s && y !in rest - {x} && y != x
          ensures Below(x, y)
        {
          if y != m { BelowTransitive(x, m, y); }
        }
        m := x;
      } else {
        BelowTotal(x, m);
      }
      rest := rest - {x};
    }
  }

  /** Every element of `s` once, in ascending QString order. */
  method SortedKeys(s: set<string>) returns (r: seq<string>)
    ensures StrictlySorted(r)
    ensures forall x :: x in s <==> x in r
    ensures |r| == |s|
  {
    r := [];
    var rest := s;
    while rest != {}
      invariant rest <= s
      invariant forall x :: x in s <==> x in r || x in rest
      invariant forall x :: x in r ==> x !in rest
      invariant StrictlySorted(r)
      invariant forall i, y :: 0 <= i < |r| && y in rest ==> Below(r[i], y)
      invariant |r| + |rest| == |s|
      decreases |rest|
    {
      var m := LeastOf(rest);
      r := r + [m];
      rest := rest - {m};
    }
  }
}
