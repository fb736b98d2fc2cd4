/** The blob store's node ids: `node-${n}` for a counter value `n`. */
module NodeIds {
  const Digits: string := "0123456789"

  /** Decimal rendering of a natural number, as template-literal interpolation does. */
  function NatToString(n: nat): (s: string)
    ensures 1 <= |s|
    ensures forall i :: 0 <= i < |s| ==> s[i] in Digits
    decreases n
  {
    if n < 10 then [Digits[n]] else NatToString(n / 10) + [Digits[n % 10]]
  }

  /** The value of a digit character. */
  function DigitValue(c: char): nat
  {
    if c == '0' then 0 else if c == '1' then 1 else if c == '2' then 2
    else if c == '3' then 3 else if c == '4' then 4 else if c == '5' then 5
    else if c == '6' then 6 else if c == '7' then 7 else if c == '8' then 8
    else if c == '9' then 9 else 0
  }

  /** Reads a decimal numeral, most significant digit first. */
  function ParseNat(s: string): nat
  {
    if |s| == 0 then 0 else 10 * ParseNat(s[..|s| - 1]) + DigitValue(s[|s| - 1])
  }

  lemma DigitValueOf(d: nat)
    requires d < 10
    ensures DigitValue(Digits[d]) == d
  {
  }

  /** Reading back a rendered number gives the number. */
  lemma {:induction false} ParseNatToString(n: nat)
    ensures ParseNat(NatToString(n)) == n
    decreases n
  {
    if n < 10 {
      DigitValueOf(n);
    } else {
      var s := NatToString(n);
      var q, r := n / 10, n % 10;
      assert s == NatToString(q) + [Digits[r]];
      assert s[..|s| - 1] == NatToString(q);
      DigitValueOf(r);
      ParseNatToString(q);
      assert n == 10 * q + r;
    }
  }

  /** `generateId`'s id for counter value `n`. */
  function IdOf(n: nat): (id: string)
    ensures |id| > 5 && id[..5] == "node-"
  {
    "node-" + NatToString(n)
  }

  /** Different counter values give different ids, so an id is never handed out twice. */
  lemma IdOfInjective(a: nat, b: nat)
    ensures IdOf(a) == IdOf(b) ==> a == b
  {
    if IdOf(a) == IdOf(b) {
      assert NatToString(a) == IdOf(a)[5..];
      ParseNatToString(a);
      ParseNatToString(b);
    }
  }
}
