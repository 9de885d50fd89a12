/** String ids as the builder formats them: a node is `l{layer}-n{index}`
    (services/meraService.ts:16, 32) and a bond is `{source}-{target}`
    (services/meraService.ts:45-46, 53). All numbers are written in decimal
    without leading zeros, as a JavaScript template literal does for a
    non-negative integer. */
module NodeIds {

  predicate IsDigit(c: char)
  {
    '0' <= c <= '9'
  }

  predicate AllDigits(s: string)
  {
    forall k :: 0 <= k < |s| ==> IsDigit(s[k])
  }

  function DigitChar(d: nat): (c: char)
    requires d < 10
    ensures IsDigit(c) && c as int - '0' as int == d
  {
    ('0' as int + d) as char
  }

  /** The decimal rendering of n. */
  function NatToString(n: nat): (s: string)
    ensures |s| >= 1 && AllDigits(s)
  {
    if n < 10 then [DigitChar(n)] else NatToString(n / 10) + [DigitChar(n % 10)]
  }

  /** Reads a string of digits as a decimal number. */
  function ParseDecimal(s: string): (n: nat)
    requires AllDigits(s)
  {
    if s == [] then 0
    else 10 * ParseDecimal(s[..|s| - 1]) + (s[|s| - 1] as int - '0' as int)
  }

  /** Reading back the decimal rendering gives the number. */
  lemma {:induction false} ParseNatToString(n: nat)
    ensures ParseDecimal(NatToString(n)) == n
  {
    var s := NatToString(n);
    if n < 10 {
      assert s[..0] == [];
    } else {
      assert s[..|s| - 1] == NatToString(n / 10);
      ParseNatToString(n / 10);
    }
  }

  lemma NatToStringInjective(a: nat, b: nat)
    requires NatToString(a) == NatToString(b)
    ensures a == b
  {
    ParseNatToString(a);
    ParseNatToString(b);
  }

  /** `l{layer}-n{index}`. */
  function NodeIdOf(layer: nat, index: nat): (id: string)
  {
    "l" + NatToString(layer) + "-n" + NatToString(index)
  }

  /** `{source}-{target}`. */
  function BondIdOf(source: string, target: string): (id: string)
  {
    source + "-" + target
  }

  /** Position of the first dash, or the length when there is none. */
  function FirstDash(s: string): (k: nat)
    ensures k <= |s|
  {
    if s == [] then 0 else if s[0] == '-' then 0 else 1 + FirstDash(s[1..])
  }

  lemma {:induction false} FirstDashAfterDigits(x: string, y: string)
    requires AllDigits(x)
    ensures FirstDash(x + "-" + y) == |x|
  {
    if x != [] {
      assert (x + "-" + y)[1..] == x[1..] + "-" + y;
      FirstDashAfterDigits(x[1..], y);
    }
  }

  /** A run of digits followed by a dash is determined by where the first dash is. */
  lemma SplitAtDash(x: string, y: string, x': string, y': string)
    requires AllDigits(x) && AllDigits(x')
    requires x + "-" + y == x' + "-" + y'
    ensures x == x' && y == y'
  {
    var s := x + "-" + y;
    FirstDashAfterDigits(x, y);
    FirstDashAfterDigits(x', y');
    assert x == s[..|x|] == x';
    assert y == s[|x| + 1..] == y';
  }

  lemma StripHead(c: char, u: string, v: string)
    requires [c] + u == [c] + v
    ensures u == v
  {
    assert u == ([c] + u)[1..];
  }

  /** Equal node ids name the same (layer, index). */
  lemma NodeIdInjective(l: nat, i: nat, l': nat, i': nat)
    requires NodeIdOf(l, i) == NodeIdOf(l', i')
    ensures l == l' && i == i'
  {
    var a, b := NatToString(l), NatToString(i);
    var a', b' := NatToString(l'), NatToString(i');
    assert NodeIdOf(l, i) == ['l'] + (a + "-" + (['n'] + b));
    assert NodeIdOf(l', i') == ['l'] + (a' + "-" + (['n'] + b'));
    StripHead('l', a + "-" + (['n'] + b), a' + "-" + (['n'] + b'));
    SplitAtDash(a, ['n'] + b, a', ['n'] + b');
    StripHead('n', b, b');
    NatToStringInjective(l, l');
    NatToStringInjective(i, i');
  }

  lemma BondIdShape(sl: nat, si: nat, t: string)
    ensures BondIdOf(NodeIdOf(sl, si), t)
         == ['l'] + (NatToString(sl) + "-" + (['n'] + (NatToString(si) + "-" + t)))
  {
  }

  /** Equal bond ids between formatted node ids name the same ordered pair of nodes. */
  lemma BondIdInjective(sl: nat, si: nat, tl: nat, ti: nat, sl': nat, si': nat, tl': nat, ti': nat)
    requires BondIdOf(NodeIdOf(sl, si), NodeIdOf(tl, ti)) == BondIdOf(NodeIdOf(sl', si'), NodeIdOf(tl', ti'))
    ensures sl == sl' && si == si' && tl == tl' && ti == ti'
  {
    var a, b, t := NatToString(sl), NatToString(si), NodeIdOf(tl, ti);
    var a', b', t' := NatToString(sl'), NatToString(si'), NodeIdOf(tl', ti');
    BondIdShape(sl, si, t);
    BondIdShape(sl', si', t');
    StripHead('l', a + "-" + (['n'] + (b + "-" + t)), a' + "-" + (['n'] + (b' + "-" + t')));
    SplitAtDash(a, ['n'] + (b + "-" + t), a', ['n'] + (b' + "-" + t'));
    StripHead('n', b + "-" + t, b' + "-" + t');
    SplitAtDash(b, t, b', t');
    NatToStringInjective(sl, sl');
    NatToStringInjective(si, si');
    NodeIdInjective(tl, ti, tl', ti');
  }
}
