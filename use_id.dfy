/**
 * Identifiers for label/field associations: each call bumps one counter
 * shared by every caller and returns the prefix, a dash and the new count.
 */
module Ids {

  /** The prefix used when the caller gives none. */
  const DefaultPrefix: string := "cl"

  function DigitChar(d: nat): (c: char)
    requires d < 10
    ensures '0' <= c <= '9'
  {
    ('0' as int + d) as char
  }

  function DigitValue(c: char): (d: nat)
    requires '0' <= c <= '9'
    ensures d < 10 && DigitChar(d) == c
  {
    (c as int - '0' as int) as nat
  }

  predicate IsDigits(s: string) {
    forall i :: 0 <= i < |s| ==> '0' <= s[i] <= '9'
  }

  /**
   * The decimal form of a count, as template interpolation writes it: one
   * digit below ten, and never a leading zero.
   */
  function Decimal(n: nat): (s: string)
    ensures |s| > 0 && IsDigits(s)
    ensures (|s| == 1) == (n < 10)
    ensures |s| == 1 || s[0] != '0'
    decreases n
  {
    if n < 10 then [DigitChar(n)] else Decimal(n / 10) + [DigitChar(n % 10)]
  }

  /** Reading a string of digits back as a number. */
  function ParseDecimal(s: string): nat
    requires IsDigits(s)
  {
    if s == [] then 0 else 10 * ParseDecimal(s[..|s| - 1]) + DigitValue(s[|s| - 1])
  }

  /** Reading back the decimal form gives the count again. */
  lemma {:induction false} DecimalRoundTrip(n: nat)
    ensures ParseDecimal(Decimal(n)) == n
    decreases n
  {
    var s := Decimal(n);
    if n < 10 {
      assert s[..0] == [];
    } else {
      var m, d := n / 10, n % 10;
      assert s[..|s| - 1] == Decimal(m) && s[|s| - 1] == DigitChar(d);
      DecimalRoundTrip(m);
      assert ParseDecimal(s) == 10 * m + d;
    }
  }

  /** Different counts have different decimal forms. */
  lemma DecimalInjective(m: nat, n: nat)
    requires Decimal(m) == Decimal(n)
    ensures m == n
  {
    DecimalRoundTrip(m);
    DecimalRoundTrip(n);
  }

  /**
   * The identifier for a prefix and a count, `${prefix}-${n}`: the prefix, a
   * dash, then digits with no leading zero that read back as the count.
   */
  function FormatId(prefix: string, n: nat): (id: string)
    ensures |id| > |prefix| + 1 && id[..|prefix|] == prefix && id[|prefix|] == '-'
    ensures IsDigits(id[|prefix| + 1..]) && ParseDecimal(id[|prefix| + 1..]) == n
    ensures |id| == |prefix| + 2 || id[|prefix| + 1] != '0'
  {
    var digits := Decimal(n);
    DecimalRoundTrip(n);
    assert (prefix + "-" + digits)[|prefix| + 1..] == digits;
    prefix + "-" + digits
  }

  /** In `prefix-digits` the separator is the last dash. */
  lemma LastDash(prefix: string, digits: string)
    requires IsDigits(digits)
    ensures (prefix + "-" + digits)[|prefix|] == '-'
    ensures forall i :: |prefix| < i < |prefix + "-" + digits| ==> (prefix + "-" + digits)[i] != '-'
  {
  }

  /**
   * An identifier determines its prefix and its count: the digits after the
   * last dash are the count, so a dash inside the prefix cannot cause a clash.
   */
  lemma FormatIdInjective(p1: string, n1: nat, p2: string, n2: nat)
    requires FormatId(p1, n1) == FormatId(p2, n2)
    ensures p1 == p2 && n1 == n2
  {
    var s := FormatId(p1, n1);
    var d1, d2 := Decimal(n1), Decimal(n2);
    assert s == p2 + "-" + d2;
    // The digits hold no dash, so both readings put the separator at the same place.
    LastDash(p1, d1);
    LastDash(p2, d2);
    if |d1| < |d2| {
      assert false;
    } else if |d2| < |d1| {
      assert false;
    }
    assert p1 == s[..|p1|] == p2;
    assert d1 == s[|p1| + 1..] == d2;
    DecimalInjective(n1, n2);
  }

  /** Two different counts never give the same identifier, whatever the prefixes. */
  lemma IdsDistinct(p1: string, n1: nat, p2: string, n2: nat)
    requires n1 != n2
    ensures FormatId(p1, n1) != FormatId(p2, n2)
  {
    if FormatId(p1, n1) == FormatId(p2, n2) {
      FormatIdInjective(p1, n1, p2, n2);
    }
  }

  /**
   * The module-level counter. One instance stands for the whole program;
   * `prefixes` records, for the proofs, the prefix of every call so far.
   */
  class IdGenerator {
    var counter: nat
    ghost var prefixes: seq<string>

    ghost predicate Valid()
      reads this
    {
      counter == |prefixes|
    }

    /** The identifiers returned so far, in call order. */
    ghost function Issued(): (ids: seq<string>)
      reads this
      ensures |ids| == |prefixes|
    {
      var ps := prefixes;
      seq(|ps|, i requires 0 <= i < |ps| => FormatId(ps[i], i + 1))
    }

    /** The counter starts at zero. */
    constructor ()
      ensures Valid() && counter == 0 && Issued() == []
    {
      counter := 0;
      prefixes := [];
    }

    /**
     * `useId`: increment the counter first, then format it, so the first call
     * yields `<prefix>-1`. The result differs from every earlier one.
     */
    method UseId(prefix: string := DefaultPrefix) returns (id: string)
      requires Valid()
      modifies this
      ensures Valid()
      ensures counter == old(counter) + 1
      ensures id == FormatId(prefix, counter)
      ensures id !in old(Issued())
      ensures Issued() == old(Issued()) + [id]
    {
      counter := counter + 1;
      id := FormatId(prefix, counter);
      forall j | 0 <= j < |old(Issued())|
        ensures old(Issued())[j] != id
      {
        IdsDistinct(old(prefixes)[j], j + 1, prefix, counter);
      }
      prefixes := prefixes + [prefix];
    }
  }

  /** A fresh generator gives `cl-1` by default, then `tab-2` for another prefix. */
  method FirstIds() returns (first: string, second: string)
    ensures first == "cl-1" && second == "tab-2"
  {
    var g := new IdGenerator();
    first := g.UseId();
    second := g.UseId("tab");
  }
}
