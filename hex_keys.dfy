/** Keys of the search tree and the order in which the tree sorts them.

    A key is a string whose first two characters (the `0x` prefix) are dropped;
    the rest is lower-cased and read as an unsigned base-16 integer of any width.
    Keys are compared by that integer, never as strings. */
module HexKeys {

  type Key = string

  predicate IsHexDigit(c: char) {
    '0' <= c <= '9' || 'a' <= c <= 'f' || 'A' <= c <= 'F'
  }

  predicate IsLowerHexDigit(c: char) {
    '0' <= c <= '9' || 'a' <= c <= 'f'
  }

  predicate IsLowerHex(s: string) {
    forall i :: 0 <= i < |s| ==> IsLowerHexDigit(s[i])
  }

  /** Lower-casing of one character. Only ASCII letters are mapped: no other
      character lower-cases to a hexadecimal digit. */
  function LowerChar(c: char): (r: char)
    ensures IsHexDigit(c) ==> IsLowerHexDigit(r)
    ensures IsLowerHexDigit(c) ==> r == c
  {
    if 'A' <= c <= 'Z' then (c as int - 'A' as int + 'a' as int) as char else c
  }

  function Lower(s: string): (r: string)
    ensures |r| == |s|
    ensures forall i :: 0 <= i < |s| ==> r[i] == LowerChar(s[i])
  {
    seq(|s|, i requires 0 <= i < |s| => LowerChar(s[i]))
  }

  function DigitValue(c: char): (d: nat)
    requires IsLowerHexDigit(c)
    ensures d < 16
  {
    if c <= '9' then c as int - '0' as int else c as int - 'a' as int + 10
  }

  function Pow16(n: nat): (r: nat)
    ensures r >= 1
  {
    if n == 0 then 1 else 16 * Pow16(n - 1)
  }

  /** The unsigned integer written by a big-endian string of lower-case hex digits.
      A string of `n` digits denotes a number below 16^n. */
  function HexValue(s: string): (v: nat)
    requires IsLowerHex(s)
    ensures v < Pow16(|s|)
    decreases |s|
  {
    if s == [] then 0
    else
      var rest := HexValue(s[1..]);
      DigitTimesPowerBound(DigitValue(s[0]), Pow16(|s| - 1), rest);
      DigitValue(s[0]) * Pow16(|s| - 1) + rest
  }

  lemma DigitTimesPowerBound(d: nat, p: nat, rest: nat)
    requires d < 16 && rest < p
    ensures d * p + rest < 16 * p
  {
    assert d * p <= 15 * p;
  }

  /** A character JavaScript stores as a single UTF-16 code unit. */
  predicate IsSingleCodeUnit(c: char) {
    c as int < 0x1_0000
  }

  /** A key the tree can order: two prefix characters of one UTF-16 code unit
      each, so that dropping two code units drops exactly them, then at least
      one character, every one of them a hex digit of either case. A payload of
      any other form is not read as a plain hex number. */
  predicate WellFormedKey(k: Key) {
    && |k| > 2
    && IsSingleCodeUnit(k[0]) && IsSingleCodeUnit(k[1])
    && forall i :: 2 <= i < |k| ==> IsHexDigit(k[i])
  }

  predicate AllWellFormed(keys: set<Key>) {
    forall k :: k in keys ==> WellFormedKey(k)
  }

  /** A key whose first character takes two UTF-16 code units, or whose payload
      would start in the middle of one, is not well formed. */
  lemma WidePrefixExcluded()
    ensures !WellFormedKey("\U{1F600}ab") && !WellFormedKey("a\U{1F600}ff")
    ensures WellFormedKey("0xab")
  {
  }

  /** The lower-cased payload of a key, without its two-character prefix. */
  function Payload(k: Key): (p: string)
    requires WellFormedKey(k)
    ensures IsLowerHex(p) && |p| == |k| - 2
  {
    Lower(k[2..])
  }

  /** The number a key stands for; it is below 16 to the number of payload digits. */
  function KeyValue(k: Key): (v: nat)
    requires WellFormedKey(k)
    ensures v < Pow16(|k| - 2)
  {
    HexValue(Payload(k))
  }

  /** The comparator handed to the sort: negative, zero or positive as the first
      key's number is below, equal to or above the second's. */
  function Compare(a: Key, b: Key): (r: int)
    requires WellFormedKey(a) && WellFormedKey(b)
    ensures -1 <= r <= 1
    ensures r == 0 <==> KeyValue(a) == KeyValue(b)
    ensures r < 0 <==> KeyValue(a) < KeyValue(b)
    ensures r > 0 <==> KeyValue(b) < KeyValue(a)
  {
    var aNum := KeyValue(a);
    var bNum := KeyValue(b);
    if aNum == bNum then 0
    else if aNum < bNum then -1
    else 1
  }

  /** The comparator is consistent in the sense a sort needs: reflexive,
      antisymmetric in sign and transitive. */
  lemma CompareIsConsistent(a: Key, b: Key, c: Key)
    requires WellFormedKey(a) && WellFormedKey(b) && WellFormedKey(c)
    ensures Compare(a, a) == 0
    ensures Compare(a, b) == -Compare(b, a)
    ensures Compare(a, b) <= 0 && Compare(b, c) <= 0 ==> Compare(a, c) <= 0
  {
  }

  /** String order on two digit strings, character by character. */
  predicate LexLess(a: string, b: string)
    decreases |a|
  {
    |a| > 0 && |b| > 0 && (a[0] < b[0] || (a[0] == b[0] && LexLess(a[1..], b[1..])))
  }

  /** On payloads of one width and one case, numeric order and string order agree,
      so numeric comparison only differs from string comparison when widths or
      cases differ. */
  lemma FixedWidthOrder(a: string, b: string)
    requires IsLowerHex(a) && IsLowerHex(b) && |a| == |b|
    ensures HexValue(a) < HexValue(b) <==> LexLess(a, b)
    ensures HexValue(a) == HexValue(b) <==> a == b
  {
    FixedWidthLess(a, b);
    FixedWidthLess(b, a);
    FixedWidthEqual(a, b);
  }

  lemma {:induction false} FixedWidthLess(a: string, b: string)
    requires IsLowerHex(a) && IsLowerHex(b) && |a| == |b|
    ensures HexValue(a) < HexValue(b) <==> LexLess(a, b)
    decreases |a|
  {
    if |a| > 0 {
      LeadingDigitDecides(a, b);
      LeadingDigitDecides(b, a);
      FixedWidthLess(a[1..], b[1..]);
    }
  }

  lemma {:induction false} FixedWidthEqual(a: string, b: string)
    requires IsLowerHex(a) && IsLowerHex(b) && |a| == |b|
    ensures HexValue(a) == HexValue(b) <==> a == b
    decreases |a|
  {
    if |a| > 0 {
      LeadingDigitDecides(a, b);
      LeadingDigitDecides(b, a);
      FixedWidthEqual(a[1..], b[1..]);
      if a[0] == b[0] && a[1..] == b[1..] {
        assert a == [a[0]] + a[1..] && b == [b[0]] + b[1..];
      }
    }
  }

  /** Of two payloads of one width, the one with the smaller leading digit is
      smaller; with equal leading digits the rest decides. */
  lemma LeadingDigitDecides(a: string, b: string)
    requires IsLowerHex(a) && IsLowerHex(b) && |a| == |b| > 0
    ensures a[0] < b[0] ==> HexValue(a) < HexValue(b)
    ensures a[0] == b[0] ==> HexValue(a) - HexValue(b) == HexValue(a[1..]) - HexValue(b[1..])
  {
    HexValueHead(a);
    HexValueHead(b);
    if a[0] < b[0] {
      DigitDominates(DigitValue(a[0]), DigitValue(b[0]), Pow16(|a| - 1), HexValue(a[1..]), HexValue(b[1..]));
    }
  }

  /** A payload's value is its leading digit's weight plus the value of the rest. */
  lemma HexValueHead(s: string)
    requires IsLowerHex(s) && |s| > 0
    ensures HexValue(s) == DigitValue(s[0]) * Pow16(|s| - 1) + HexValue(s[1..])
  {
  }

  lemma DigitDominates(dx: nat, dy: nat, p: nat, rx: nat, ry: nat)
    requires dx < dy && rx < p
    ensures dx * p + rx < dy * p + ry
  {
    assert (dx + 1) * p <= dy * p;
  }

  /** Two keys of the same width tie only when their payloads differ in case alone. */
  lemma SameWidthTies(a: Key, b: Key)
    requires WellFormedKey(a) && WellFormedKey(b) && |a| == |b|
    ensures KeyValue(a) == KeyValue(b) <==> Payload(a) == Payload(b)
  {
    FixedWidthOrder(Payload(a), Payload(b));
  }

  /** Distinct key strings can still tie: a leading zero or a change of case
      leaves the number unchanged. */
  lemma DistinctKeysCanTie()
    ensures WellFormedKey("0x1") && WellFormedKey("0x01") && "0x1" != "0x01"
    ensures KeyValue("0x1") == KeyValue("0x01")
    ensures WellFormedKey("0xab") && WellFormedKey("0xAB") && "0xab" != "0xAB"
    ensures KeyValue("0xab") == KeyValue("0xAB")
  {
    assert "0x1"[2..] == "1" && "0x01"[2..] == "01";
    assert Lower("1") == "1" && Lower("01") == "01";
    assert "0xab"[2..] == "ab" && "0xAB"[2..] == "AB";
    assert Lower("ab") == "ab" && Lower("AB") == "ab";
  }
}
