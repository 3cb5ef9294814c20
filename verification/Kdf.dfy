/** The canonical manifest text that is authenticated: two lists of decimal numbers. */
module Kdf {
  import opened Basics

  const SEPARATOR: byte := 0x7C
  const NEWLINE: byte := 0x0A

  /** Decimal digits, as `format!` prints a u64. */
  function Decimal(n: nat): (b: Bytes)
    ensures b != []
  {
    if n < 10 then [0x30 + n] else Decimal(n / 10) + [0x30 + n % 10]
  }

  predicate IsDigit(b: byte) {
    0x30 <= b <= 0x39
  }

  function Joined(ns: seq<nat>): (b: Bytes) {
    if ns == [] then []
    else if |ns| == 1 then Decimal(ns[0])
    else Joined(ns[..|ns| - 1]) + [SEPARATOR] + Decimal(ns[|ns| - 1])
  }

  /** `prefix` stands for the protocol identifier and the label, each with its newline. */
  function ManifestText(prefix: Bytes, coords: seq<nat>, abjad: seq<nat>): (b: Bytes) {
    prefix + (Joined(coords) + [NEWLINE] + Joined(abjad))
  }

  method JoinNumbers(ns: seq<nat>) returns (text: Bytes)
    ensures text == Joined(ns)
  {
    text := [];
    for i := 0 to |ns|
      invariant text == Joined(ns[..i])
    {
      assert ns[..i + 1][..i] == ns[..i];
      if i > 0 {
        text := text + [SEPARATOR];
      }
      text := text + Decimal(ns[i]);
    }
    assert ns[..|ns|] == ns;
  }

  /** `canonical_manifest_bytes` */
  method CanonicalManifestBytes(prefix: Bytes, coords: seq<nat>, abjad: seq<nat>) returns (r: Result<Bytes>)
    ensures r == if coords == [] && abjad == [] then Err(EmptyInput) else Ok(ManifestText(prefix, coords, abjad))
  {
    if coords == [] && abjad == [] {
      return Err(EmptyInput);
    }
    var coordsText := JoinNumbers(coords);
    var abjadText := JoinNumbers(abjad);
    return Ok(prefix + (coordsText + [NEWLINE] + abjadText));
  }

  // ------------------------------------------------------------- injectivity

  lemma {:induction false} DecimalIsDigits(n: nat)
    ensures forall i :: 0 <= i < |Decimal(n)| ==> IsDigit(Decimal(n)[i])
  {
    if n >= 10 {
      DecimalIsDigits(n / 10);
    }
  }

  /** The number that decimal digits read from the left denote. */
  function Number(digits: Bytes): (n: int) {
    if digits == [] then 0 else 10 * Number(digits[..|digits| - 1]) + (digits[|digits| - 1] as int - 0x30)
  }

  /** Decimal digits denote the number they print, without a leading zero. */
  lemma {:induction false} DecimalDenotes(n: nat)
    ensures Number(Decimal(n)) == n
    ensures Decimal(n)[0] == 0x30 ==> n == 0 && |Decimal(n)| == 1
    ensures forall i :: 0 <= i < |Decimal(n)| ==> 0x30 <= Decimal(n)[i] <= 0x39
  {
    if n >= 10 {
      DecimalDenotes(n / 10);
      var d := Decimal(n);
      assert d[..|d| - 1] == Decimal(n / 10);
    } else {
      assert Decimal(n)[..0] == [];
    }
  }

  lemma {:induction false} DecimalInjective(m: nat, n: nat)
    requires Decimal(m) == Decimal(n)
    ensures m == n
  {
    var a, b := Decimal(m), Decimal(n);
    if m >= 10 && n >= 10 {
      assert a[..|a| - 1] == Decimal(m / 10) && b[..|b| - 1] == Decimal(n / 10);
      assert a[|a| - 1] == 0x30 + m % 10 && b[|b| - 1] == 0x30 + n % 10;
      DecimalInjective(m / 10, n / 10);
    }
  }

  /** The list grows by a bar and the next number; the text is the two lists on lines of their own. */
  lemma TextShape(prefix: Bytes, ns: seq<nat>, n: nat, abjad: seq<nat>)
    ensures Joined([]) == [] && Joined([n]) == Decimal(n)
    ensures ns != [] ==> Joined(ns + [n]) == Joined(ns) + ['|' as int] + Decimal(n)
    ensures ManifestText(prefix, ns, abjad) == prefix + Joined(ns) + ['\n' as int] + Joined(abjad)
  {
    hide Decimal;
    assert (ns + [n])[..|ns|] == ns;
  }

  /** No newline inside a list, and every list but the empty one prints something. */
  lemma {:induction false} JoinedBytes(ns: seq<nat>)
    ensures forall i :: 0 <= i < |Joined(ns)| ==> IsDigit(Joined(ns)[i]) || Joined(ns)[i] == SEPARATOR
    ensures Joined(ns) == [] <==> ns == []
    decreases |ns|
  {
    if ns != [] {
      DecimalIsDigits(ns[|ns| - 1]);
      JoinedBytes(ns[..|ns| - 1]);
    }
  }

  /** Where a mark that does not occur in a neighbour can sit. */
  lemma MarkPosition(a: Bytes, b: Bytes, c: Bytes, d: Bytes, mark: byte)
    requires a + [mark] + b == c + [mark] + d
    ensures mark !in c ==> |a| >= |c|
    ensures mark !in d ==> |a| <= |c|
    ensures |a| == |c| ==> a == c && b == d
  {
    var x, y := a + [mark] + b, c + [mark] + d;
    assert x[|a|] == mark;
    assert |a| < |c| ==> y[|a|] == c[|a|];
    assert |a| > |c| ==> y[|a|] == d[|a| - |c| - 1];
    assert x[..|a|] == a && y[..|c|] == c && x[|a| + 1..] == b && y[|c| + 1..] == d;
  }

  /** The part after the last separator is the last number. */
  lemma LastNumber(a: Bytes, m: nat, b: Bytes, n: nat)
    requires a + [SEPARATOR] + Decimal(m) == b + [SEPARATOR] + Decimal(n)
    ensures a == b && m == n
  {
    DecimalIsDigits(m);
    DecimalIsDigits(n);
    MarkPosition(a, Decimal(m), b, Decimal(n), SEPARATOR);
    MarkPosition(b, Decimal(n), a, Decimal(m), SEPARATOR);
    DecimalInjective(m, n);
  }

  lemma OneIsNotMany(m: nat, a: Bytes, n: nat)
    ensures Decimal(m) != a + [SEPARATOR] + Decimal(n)
  {
    DecimalIsDigits(m);
    var whole := a + [SEPARATOR] + Decimal(n);
    assert whole[|a|] == SEPARATOR;
  }

  lemma {:induction false} JoinedInjective(a: seq<nat>, b: seq<nat>)
    requires Joined(a) == Joined(b)
    ensures a == b
    decreases |a|
  {
    JoinedBytes(a);
    JoinedBytes(b);
    if |a| == 1 && |b| == 1 {
      DecimalInjective(a[0], b[0]);
    } else if |a| == 1 && |b| > 1 {
      OneIsNotMany(a[0], Joined(b[..|b| - 1]), b[|b| - 1]);
    } else if |a| > 1 && |b| == 1 {
      OneIsNotMany(b[0], Joined(a[..|a| - 1]), a[|a| - 1]);
    } else if |a| > 1 && |b| > 1 {
      LastNumber(Joined(a[..|a| - 1]), a[|a| - 1], Joined(b[..|b| - 1]), b[|b| - 1]);
      JoinedInjective(a[..|a| - 1], b[..|b| - 1]);
      assert a == a[..|a| - 1] + [a[|a| - 1]] && b == b[..|b| - 1] + [b[|b| - 1]];
    }
  }

  /** Two pairs of number lists with the same canonical bytes are the same pair. */
  lemma ManifestTextInjective(prefix: Bytes, coords: seq<nat>, abjad: seq<nat>, coords': seq<nat>, abjad': seq<nat>)
    requires ManifestText(prefix, coords, abjad) == ManifestText(prefix, coords', abjad')
    ensures coords == coords' && abjad == abjad'
  {
    JoinedBytes(coords);
    JoinedBytes(coords');
    var x, y := Joined(coords) + [NEWLINE] + Joined(abjad), Joined(coords') + [NEWLINE] + Joined(abjad');
    assert (prefix + x)[|prefix|..] == x && (prefix + y)[|prefix|..] == y;
    hide Joined;
    MarkPosition(Joined(coords), Joined(abjad), Joined(coords'), Joined(abjad'), NEWLINE);
    MarkPosition(Joined(coords'), Joined(abjad'), Joined(coords), Joined(abjad), NEWLINE);
    JoinedInjective(coords, coords');
    JoinedInjective(abjad, abjad');
  }
}
