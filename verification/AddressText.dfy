/** Addresses as text: `Address` and `InternalAddress` of the record access code, and the canonical
    `ParseAddress` of the transaction engine. */
module AddressText {
  import opened Bytes

  predicate UpperHexDigit(c: char) {
    '0' <= c <= '9' || 'A' <= c <= 'F'
  }

  predicate HexDigit(c: char) {
    UpperHexDigit(c) || 'a' <= c <= 'f'
  }

  predicate AllHex(text: string) {
    forall i :: 0 <= i < |text| ==> HexDigit(text[i])
  }

  function DigitValue(c: char): nat
    requires HexDigit(c)
  {
    if c <= '9' then c as int - '0' as int
    else if c <= 'F' then c as int - 'A' as int + 10
    else c as int - 'a' as int + 10
  }

  function DigitChar(value: nat): char
    requires value < 16
  {
    if value < 10 then (value + '0' as int) as char else (value - 10 + 'A' as int) as char
  }

  /** The upper-case digits an output stream in hex mode prints. */
  function Digits(value: nat): string {
    if value < 16 then [DigitChar(value)] else Digits(value / 16) + [DigitChar(value % 16)]
  }

  function HexValue(text: string): nat
    requires AllHex(text)
  {
    if text == "" then 0
    else HexValue(text[..|text| - 1]) * 16 + DigitValue(text[|text| - 1])
  }

  function Format(address: Address): string {
    "0x" + Digits(address)
  }

  /** `std::from_chars` in base 16 with the whole text consumed: either case, leading zeros allowed,
      64-bit overflow refused. */
  function FromChars(text: string): Option<Address> {
    if text != "" && AllHex(text) && HexValue(text) <= ADDRESS_MAX then Some(HexValue(text)) else None
  }

  function ParseInternal(text: string): Option<Address> {
    if |text| <= 2 || text[..2] != "0x" then None else FromChars(text[2..])
  }

  function ParseCanonical(text: string): Option<Address> {
    if |text| <= 2 || text[0] != '0' || text[1] != 'x' || (|text| > 3 && text[2] == '0')
       || exists i :: 2 <= i < |text| && !UpperHexDigit(text[i])
    then None
    else FromChars(text[2..])
  }

  lemma {:induction false} DigitsAreCanonical(value: nat)
    ensures var d := Digits(value);
      && d != "" && AllHex(d) && HexValue(d) == value
      && (forall i :: 0 <= i < |d| ==> UpperHexDigit(d[i]))
      && (|d| > 1 ==> d[0] != '0')
      && (value > 0 ==> d[0] != '0')
  {
    if value >= 16 {
      DigitsAreCanonical(value / 16);
      var d := Digits(value);
      assert d[..|d| - 1] == Digits(value / 16);
    }
  }

  lemma {:induction false} LeadingDigitCounts(text: string)
    requires AllHex(text) && text != "" && text[0] != '0'
    ensures HexValue(text) > 0
  {
    if |text| > 1 {
      LeadingDigitCounts(text[..|text| - 1]);
    } else {
      assert text[..0] == "";
    }
  }

  lemma {:induction false} DigitsOfValue(text: string)
    requires text != "" && (forall i :: 0 <= i < |text| ==> UpperHexDigit(text[i]))
    requires |text| > 1 ==> text[0] != '0'
    ensures AllHex(text) && Digits(HexValue(text)) == text
  {
    var last := text[|text| - 1];
    var front := text[..|text| - 1];
    if |text| > 1 {
      DigitsOfValue(front);
      LeadingDigitCounts(front);
    } else {
      assert front == "";
    }
    assert text == front + [last];
    assert DigitChar(DigitValue(last)) == last;
  }

  /** Printing and canonical parsing are inverse bijections between the addresses and the accepted
      texts, and the lenient parser agrees on every printed address. */
  lemma {:induction false} FormatParseBijection(address: Address, text: string)
    ensures ParseCanonical(Format(address)) == Some(address)
    ensures ParseInternal(Format(address)) == Some(address)
    ensures ParseCanonical(text) == Some(address) <==> text == Format(address)
  {
    DigitsAreCanonical(address);
    var printed := Format(address);
    assert printed[2..] == Digits(address);
    assert printed[..2] == "0x";
    assert forall i :: 2 <= i < |printed| ==> printed[i] == Digits(address)[i - 2];
    if ParseCanonical(text) == Some(address) {
      DigitsOfValue(text[2..]);
      assert text == "0x" + text[2..];
    }
  }
}
