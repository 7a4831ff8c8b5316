/**
 The mixed-case checksum form of an address (EIP-55): the case of every letter repeats one bit
 of the hash of the lower-case digits. The hash function is a parameter.
 */
module EthChecksum {
  import opened Wrappers

  type Digest = h: seq<bv8> | |h| == 32 witness seq(32, _ => 0)

  function ToLower(c: char): char { if 'A' <= c <= 'Z' then ((c as int) + 32) as char else c }

  function ToUpper(c: char): char { if 'a' <= c <= 'z' then ((c as int) - 32) as char else c }

  function Lowercase(s: string): (r: string)
    ensures |r| == |s| && forall i :: 0 <= i < |s| ==> r[i] == ToLower(s[i])
  {
    seq(|s|, i requires 0 <= i < |s| => ToLower(s[i]))
  }

  predicate IsAsciiDigit(c: char) { '0' <= c <= '9' }

  /** The lower-case text without its prefix. */
  function DigitsOf(addr: string): string {
    var lower := Lowercase(addr);
    if "0x" <= lower then lower[2..] else lower
  }

  predicate IsHexDigit(c: char) { '0' <= c <= '9' || 'a' <= c <= 'f' }

  /** Forty hexadecimal digits in any case, with or without the prefix. */
  predicate IsAddressText(addr: string) {
    |DigitsOf(addr)| == 40 && forall i :: 0 <= i < 40 ==> IsHexDigit(DigitsOf(addr)[i])
  }

  /** Bit `k` of the digest, the most significant bit first, as EIP-55 numbers them. */
  function Bit(h: Digest, k: nat): bool
    requires k < 256
  {
    ByteBit(h[k / 8], k % 8)
  }

  function ByteBit(b: bv8, k: nat): bool
    decreases k
  {
    if k == 0 then b & 0x80 != 0 else ByteBit(b << 1, k - 1)
  }

  function Cased(c: char, upper: bool): char {
    if IsAsciiDigit(c) then c else if upper then ToUpper(c) else ToLower(c)
  }

  /** The specification: the letter at position `i` is upper-case iff bit `4 * i` is set. */
  function Checksum(keccak: string -> Digest, addr: string): string
    requires |DigitsOf(addr)| <= 64
  {
    var digits := DigitsOf(addr);
    var hash := keccak(digits);
    "0x" + seq(|digits|, i requires 0 <= i < |digits| => Cased(digits[i], Bit(hash, 4 * i)))
  }

  /** The test of the code: the top bit of the high or of the low half of byte `i / 2`. It is
      exactly bit `4 * i`. */
  method MaskIsSet(h: Digest, i: nat) returns (set4i: bool)
    requires i < 64
    ensures set4i == Bit(h, 4 * i)
  {
    var b := h[i / 2];
    set4i := b & (1 << (7 - 4 * (i % 2))) != 0;
    assert 4 * i / 8 == i / 2 && 4 * i % 8 == 4 * (i % 2);
    if i % 2 == 0 {
      assert Bit(h, 4 * i) == ByteBit(b, 0);
    } else {
      assert Bit(h, 4 * i) == ByteBit(b, 4) == ByteBit(b << 1, 3) == ByteBit(b << 1 << 1, 2);
      assert ByteBit(b << 1 << 1, 2) == ByteBit(b << 1 << 1 << 1, 1) == ByteBit(b << 1 << 1 << 1 << 1, 0);
      assert (b & 0x08 != 0) == ((b << 1 << 1 << 1 << 1) & 0x80 != 0);
    }
  }

  method ChecksumAddress(keccak: string -> Digest, text: string) returns (result: string)
    requires |DigitsOf(text)| <= 64
    ensures result == Checksum(keccak, text)
  {
    var addr := Lowercase(text);
    if "0x" <= addr {
      addr := addr[2..];
    }
    result := PushCased("0x", addr, keccak(addr));
  }

  method PushCased(prefix: string, addr: string, hash: Digest) returns (result: string)
    requires |addr| <= 64
    ensures result == prefix + seq(|addr|, i requires 0 <= i < |addr| => Cased(addr[i], Bit(hash, 4 * i)))
  {
    result := prefix;
    for i := 0 to |addr|
      invariant |result| == |prefix| + i && prefix <= result
      invariant forall j :: 0 <= j < i ==> result[|prefix| + j] == Cased(addr[j], Bit(hash, 4 * j))
    {
      var c := addr[i];
      var upper := MaskIsSet(hash, i);
      if IsAsciiDigit(c) {
        result := result + [c];
      } else if upper {
        result := result + [ToUpper(c)];
      } else {
        result := result + [ToLower(c)];
      }
    }
  }

  predicate IsValidChecksumAddr(keccak: string -> Digest, addr: string)
    requires |DigitsOf(addr)| <= 64
  {
    addr == Checksum(keccak, addr)
  }

  /** Checksumming changes nothing but case, and adds the prefix. */
  lemma ChecksumKeepsDigits(keccak: string -> Digest, addr: string)
    requires IsAddressText(addr)
    ensures DigitsOf(Checksum(keccak, addr)) == DigitsOf(addr)
    ensures "0x" <= Checksum(keccak, addr)
  {
    var digits, r := DigitsOf(addr), Checksum(keccak, addr);
    forall i | 0 <= i < 40 ensures Lowercase(r)[2 + i] == digits[i] {
      assert r[2 + i] == Cased(digits[i], Bit(keccak(digits), 4 * i));
      assert IsHexDigit(digits[i]);
    }
    assert Lowercase(r)[..2] == "0x";
    assert Lowercase(r)[2..] == digits;
  }

  /** Letter by letter: decimal digits stay, and a letter is upper-case exactly if its bit is set. */
  lemma ChecksumLetters(keccak: string -> Digest, addr: string, i: nat)
    requires IsAddressText(addr) && i < 40
    ensures var digits, r := DigitsOf(addr), Checksum(keccak, addr);
            && |r| == 42
            && ('0' <= digits[i] <= '9' ==> r[2 + i] == digits[i])
            && ('a' <= digits[i] <= 'f' ==> (if Bit(keccak(digits), 4 * i) then 'A' <= r[2 + i] <= 'F'
                                             else 'a' <= r[2 + i] <= 'f'))
  {
    var digits, r := DigitsOf(addr), Checksum(keccak, addr);
    assert IsHexDigit(digits[i]);
    assert r[2 + i] == Cased(digits[i], Bit(keccak(digits), 4 * i));
  }

  /** The same digits in any case, with or without prefix, have the same checksum form. */
  lemma ChecksumIgnoresCase(keccak: string -> Digest, a: string, b: string)
    requires IsAddressText(a) && IsAddressText(b)
    ensures DigitsOf(a) == DigitsOf(b) <==> Checksum(keccak, a) == Checksum(keccak, b)
  {
    ChecksumKeepsDigits(keccak, a);
    ChecksumKeepsDigits(keccak, b);
  }

  /** Checksumming twice is checksumming once; the result is always valid. */
  lemma ChecksumIsIdempotent(keccak: string -> Digest, addr: string)
    requires IsAddressText(addr)
    ensures IsAddressText(Checksum(keccak, addr))
    ensures Checksum(keccak, Checksum(keccak, addr)) == Checksum(keccak, addr)
    ensures IsValidChecksumAddr(keccak, Checksum(keccak, addr))
  {
    ChecksumKeepsDigits(keccak, addr);
  }

  // --- parsing back -------------------------------------------------------------------------------

  function HexValue(c: char): nat
    requires IsHexDigit(c)
  {
    if c <= '9' then c as int - '0' as int else c as int - 'a' as int + 10
  }

  function AddressValue(digits: string): nat
    requires forall i :: 0 <= i < |digits| ==> IsHexDigit(digits[i])
  {
    if digits == [] then 0 else 16 * AddressValue(digits[..|digits| - 1]) + HexValue(digits[|digits| - 1])
  }

  /** The value of two parts: with `DigitValues`, the ordinary reading of hexadecimal numbers. */
  lemma {:induction false} AddressValueIsPositional(a: string, b: string, scale: nat)
    requires forall i :: 0 <= i < |a| ==> IsHexDigit(a[i])
    requires forall i :: 0 <= i < |b| ==> IsHexDigit(b[i])
    requires scale == Pow16(|b|)
    ensures forall i :: 0 <= i < |a + b| ==> IsHexDigit((a + b)[i])
    ensures AddressValue(a + b) == AddressValue(a) * scale + AddressValue(b)
    decreases |b|
  {
    if b == [] {
      assert a + b == a;
    } else {
      var n := |b| - 1;
      AddressValueIsPositional(a, b[..n], Pow16(n));
      assert (a + b)[..|a + b| - 1] == a + b[..n];
      SixteenTimes(AddressValue(a), Pow16(n), scale);
    }
  }

  function Pow16(k: nat): nat { if k == 0 then 1 else 16 * Pow16(k - 1) }

  lemma SixteenTimes(a: nat, p: nat, q: nat)
    requires q == 16 * p
    ensures 16 * (a * p) == a * q
  {
    assert a * (16 * p) == 16 * (a * p);
  }

  lemma DigitValues(k: nat)
    requires k < 16
    ensures IsHexDigit("0123456789abcdef"[k]) && HexValue("0123456789abcdef"[k]) == k
  {}

  /** Requires the prefix and exactly forty digits, of any case. */
  function AddrFromStr(addr: string): Option<nat> {
    if !("0x" <= addr) then None else
    var digits := Lowercase(addr[2..]);
    if |digits| == 40 && forall i :: 0 <= i < 40 ==> IsHexDigit(digits[i]) then Some(AddressValue(digits)) else None
  }

  function ValidAddrFromStr(keccak: string -> Digest, addr: string): Option<nat> {
    match AddrFromStr(addr)
    case None => None
    case Some(value) =>
      assert Lowercase(addr)[..2] == "0x";
      if !IsValidChecksumAddr(keccak, addr) then None else Some(value)
  }

  lemma PrefixedDigits(addr: string)
    requires "0x" <= addr
    ensures DigitsOf(addr) == Lowercase(addr[2..])
  {
    assert Lowercase(addr)[0] == '0' && Lowercase(addr)[1] == 'x';
    assert Lowercase(addr)[2..] == Lowercase(addr[2..]);
  }

  /** A text is accepted exactly if it is an address in its own checksum form. */
  lemma AcceptedIff(keccak: string -> Digest, addr: string)
    ensures ValidAddrFromStr(keccak, addr).Some? <==> IsAddressText(addr) && addr == Checksum(keccak, addr)
    ensures ValidAddrFromStr(keccak, addr).Some? ==>
              ValidAddrFromStr(keccak, addr).value == AddressValue(DigitsOf(addr))
  {
    if "0x" <= addr {
      PrefixedDigits(addr);
    }
  }

  /** The checksum form is accepted and parses to the address it was made from. */
  lemma ChecksumParsesBack(keccak: string -> Digest, addr: string)
    requires IsAddressText(addr)
    ensures ValidAddrFromStr(keccak, Checksum(keccak, addr)) == Some(AddressValue(DigitsOf(addr)))
  {
    ChecksumKeepsDigits(keccak, addr);
    ChecksumIsIdempotent(keccak, addr);
    PrefixedDigits(Checksum(keccak, addr));
  }

  lemma {:induction false} AddressValueIsInjective(a: string, b: string)
    requires |a| == |b|
    requires forall i :: 0 <= i < |a| ==> IsHexDigit(a[i])
    requires forall i :: 0 <= i < |b| ==> IsHexDigit(b[i])
    requires AddressValue(a) == AddressValue(b)
    ensures a == b
  {
    if a != [] {
      var n := |a| - 1;
      assert HexValue(a[n]) == HexValue(b[n]);
      AddressValueIsInjective(a[..n], b[..n]);
      assert a == a[..n] + [a[n]] && b == b[..n] + [b[n]];
    }
  }

  /** Every address has exactly one accepted text: two accepted texts of one address are equal. */
  lemma AcceptedTextIsUnique(keccak: string -> Digest, a: string, b: string)
    requires ValidAddrFromStr(keccak, a).Some? && ValidAddrFromStr(keccak, a) == ValidAddrFromStr(keccak, b)
    ensures a == b
  {
    PrefixedDigits(a);
    PrefixedDigits(b);
    AddressValueIsInjective(DigitsOf(a), DigitsOf(b));
  }
}
