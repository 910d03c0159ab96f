/** Recovery codes as text: generation, normal form and comparison (internal/mfa/totp.go). */
module RecoveryCode {
  import opened Prelude

  /** SHA-256, taken to be injective. */
  datatype Digest = Sha256(text: string)

  const RECOVERY_CODE_COUNT: nat := 10
  const HEX: string := "0123456789ABCDEF"

  function Hex(bytes: seq<Byte>): string {
    if bytes == [] then "" else [HEX[bytes[0] / 16], HEX[bytes[0] % 16]] + Hex(bytes[1..])
  }

  /** randomRecoveryCode: four random bytes as XXXX-XXXX. */
  function Format(bytes: seq<Byte>): string
    requires |bytes| == 4
  {
    HexLength(bytes);
    var raw := Hex(bytes);
    raw[..4] + "-" + raw[4..]
  }

  lemma {:induction false} HexLength(bytes: seq<Byte>)
    ensures |Hex(bytes)| == 2 * |bytes|
  {
    if bytes != [] {
      HexLength(bytes[1..]);
    }
  }

  /** unicode.IsSpace. */
  predicate IsSpace(c: char) {
    var u := c as int;
    || 9 <= u <= 13 || u == 0x20 || u == 0x85 || u == 0xA0 || u == 0x1680 || 0x2000 <= u <= 0x200A
    || u == 0x2028 || u == 0x2029 || u == 0x202F || u == 0x205F || u == 0x3000
  }

  function Upper(c: char): char {
    if 'a' <= c <= 'z' then (c as int - 32) as char else c
  }

  function ToUpper(s: string): string {
    if s == "" then "" else [Upper(s[0])] + ToUpper(s[1..])
  }

  function RemoveDashes(s: string): string {
    if s == "" then "" else (if s[0] == '-' then "" else [s[0]]) + RemoveDashes(s[1..])
  }

  function TrimLeft(s: string): string {
    if s != "" && IsSpace(s[0]) then TrimLeft(s[1..]) else s
  }

  function TrimRight(s: string): string {
    if s != "" && IsSpace(s[|s| - 1]) then TrimRight(s[..|s| - 1]) else s
  }

  function Normalize(code: string): string {
    ToUpper(RemoveDashes(TrimRight(TrimLeft(code))))
  }

  function HashRecoveryCode(code: string): Digest {
    Sha256(Normalize(code))
  }

  predicate VerifyRecoveryCode(code: string, stored: Digest) {
    HashRecoveryCode(code) == stored
  }

  // ---- The reference: what counts as writing a code down. ----

  /** `body` writes the digits out in order, in either case, with dashes anywhere. */
  ghost predicate Spells(body: string, digits: string) {
    if body == "" then digits == ""
    else if body[0] == '-' then Spells(body[1..], digits)
    else digits != "" && Upper(body[0]) == digits[0] && Spells(body[1..], digits[1..])
  }

  ghost predicate AllSpace(s: string) {
    forall i :: 0 <= i < |s| ==> IsSpace(s[i])
  }

  ghost predicate Respells(s: string, lead: string, body: string, trail: string, bytes: seq<Byte>) {
    s == lead + body + trail && AllSpace(lead) && AllSpace(trail) && Spells(body, Hex(bytes))
  }

  lemma {:induction false} SpellsIffNormal(body: string, digits: string)
    ensures Spells(body, digits) <==> ToUpper(RemoveDashes(body)) == digits
  {
    hide Upper;
    if body != "" {
      if body[0] == '-' {
        assert RemoveDashes(body) == RemoveDashes(body[1..]);
        SpellsIffNormal(body[1..], digits);
      } else {
        var rest := RemoveDashes(body[1..]);
        assert RemoveDashes(body) == [body[0]] + rest && RemoveDashes(body)[1..] == rest;
        assert ToUpper(RemoveDashes(body)) == [Upper(body[0])] + ToUpper(rest);
        if digits != "" {
          SpellsIffNormal(body[1..], digits[1..]);
          assert digits == [digits[0]] + digits[1..];
        }
      }
    }
  }

  predicate HexDigit(c: char) {
    '0' <= c <= '9' || 'A' <= c <= 'F'
  }

  lemma {:induction false} HexIsDigits(bytes: seq<Byte>)
    ensures forall i :: 0 <= i < |Hex(bytes)| ==> HexDigit(Hex(bytes)[i])
  {
    if bytes != [] {
      HexIsDigits(bytes[1..]);
    }
  }

  /** Nothing in the body of a respelling is white space. */
  lemma {:induction false} SpellingHasNoSpace(body: string, digits: string)
    requires Spells(body, digits)
    requires forall i :: 0 <= i < |digits| ==> HexDigit(digits[i])
    ensures forall i :: 0 <= i < |body| ==> !IsSpace(body[i])
  {
    if body != "" {
      if body[0] == '-' {
        SpellingHasNoSpace(body[1..], digits);
      } else {
        SpellingHasNoSpace(body[1..], digits[1..]);
      }
    }
  }

  lemma {:induction false} TrimLeftDrops(lead: string, rest: string)
    requires AllSpace(lead) && (rest == "" || !IsSpace(rest[0]))
    ensures TrimLeft(lead + rest) == rest
  {
    if lead == "" {
      assert lead + rest == rest;
    } else {
      assert (lead + rest)[1..] == lead[1..] + rest;
      TrimLeftDrops(lead[1..], rest);
    }
  }

  lemma {:induction false} TrimRightDrops(rest: string, trail: string)
    requires AllSpace(trail) && (rest == "" || !IsSpace(rest[|rest| - 1]))
    ensures TrimRight(rest + trail) == rest
  {
    if trail == "" {
      assert rest + trail == rest;
    } else {
      assert (rest + trail)[..|rest + trail| - 1] == rest + trail[..|trail| - 1];
      TrimRightDrops(rest, trail[..|trail| - 1]);
    }
  }

  lemma {:induction false} TrimLeftSplits(s: string) returns (lead: string)
    ensures s == lead + TrimLeft(s) && AllSpace(lead)
  {
    if s != "" && IsSpace(s[0]) {
      var tail := TrimLeftSplits(s[1..]);
      lead := [s[0]] + tail;
      assert s == [s[0]] + s[1..];
    } else {
      lead := "";
    }
  }

  lemma {:induction false} TrimRightSplits(s: string) returns (trail: string)
    ensures s == TrimRight(s) + trail && AllSpace(trail)
  {
    if s != "" && IsSpace(s[|s| - 1]) {
      var init := TrimRightSplits(s[..|s| - 1]);
      trail := init + [s[|s| - 1]];
      assert s == s[..|s| - 1] + [s[|s| - 1]];
    } else {
      trail := "";
    }
  }

  lemma {:induction false} FormatSpells(bytes: seq<Byte>)
    requires |bytes| == 4
    ensures Spells(Format(bytes), Hex(bytes))
  {
    HexLength(bytes);
    HexIsDigits(bytes);
    var raw := Hex(bytes);
    hide Hex;
    SpellsItself(raw[4..]);
    assert ("-" + raw[4..])[1..] == raw[4..];
    SpellsPrefix(raw[..4], "-" + raw[4..], raw[4..]);
    assert raw[..4] + raw[4..] == raw && Format(bytes) == raw[..4] + ("-" + raw[4..]);
  }

  lemma FormatNormalizes(bytes: seq<Byte>)
    requires |bytes| == 4
    ensures Normalize(Format(bytes)) == Hex(bytes)
  {
    FormatSpells(bytes);
    hide Hex, Format, Spells, Normalize;
    assert Format(bytes) == "" + Format(bytes) + "";
    RespellingVerifies(Format(bytes), "", Format(bytes), "", bytes);
  }

  lemma {:induction false} SpellsItself(raw: string)
    requires forall i :: 0 <= i < |raw| ==> HexDigit(raw[i])
    ensures Spells(raw, raw)
  {
    if raw != "" {
      SpellsItself(raw[1..]);
    }
  }

  lemma {:induction false} SpellsPrefix(front: string, body: string, digits: string)
    requires forall i :: 0 <= i < |front| ==> HexDigit(front[i])
    requires Spells(body, digits)
    ensures Spells(front + body, front + digits)
  {
    if front == "" {
      assert front + body == body && front + digits == digits;
    } else {
      SpellsPrefix(front[1..], body, digits);
      assert (front + body)[1..] == front[1..] + body && (front + digits)[1..] == front[1..] + digits;
    }
  }

  lemma RespellingVerifies(s: string, lead: string, body: string, trail: string, bytes: seq<Byte>)
    requires Respells(s, lead, body, trail, bytes) && bytes != []
    ensures Normalize(s) == Hex(bytes)
  {
    HexLength(bytes);
    HexIsDigits(bytes);
    SpellingHasNoSpace(body, Hex(bytes));
    assert body != "";
    assert s == lead + (body + trail) && (body + trail)[0] == body[0];
    TrimLeftDrops(lead, body + trail);
    TrimRightDrops(body, trail);
    SpellsIffNormal(body, Hex(bytes));
  }

  /**
   * A string verifies against a generated code's hash exactly when it writes out
   * that code's digits in order, in either case, with dashes anywhere among them
   * and white space only around the whole.
   */
  lemma VerifiesIffRespelling(s: string, bytes: seq<Byte>)
    requires |bytes| == 4
    ensures VerifyRecoveryCode(s, HashRecoveryCode(Format(bytes))) <==>
      exists lead, body, trail :: Respells(s, lead, body, trail, bytes)
  {
    FormatNormalizes(bytes);
    if exists lead, body, trail :: Respells(s, lead, body, trail, bytes) {
      var lead, body, trail :| Respells(s, lead, body, trail, bytes);
      RespellingVerifies(s, lead, body, trail, bytes);
    } else if Normalize(s) == Hex(bytes) {
      var lead := TrimLeftSplits(s);
      var trail := TrimRightSplits(TrimLeft(s));
      var body := TrimRight(TrimLeft(s));
      SpellsIffNormal(body, Hex(bytes));
      assert s == lead + body + trail;
      assert Respells(s, lead, body, trail, bytes);
    }
  }

  lemma {:induction false} HexInjective(a: seq<Byte>, b: seq<Byte>)
    requires Hex(a) == Hex(b)
    ensures a == b
  {
    HexLength(a);
    HexLength(b);
    if a != [] {
      assert Hex(a)[0] == Hex(b)[0] && Hex(a)[1] == Hex(b)[1];
      HexDigitInjective(a[0] / 16, b[0] / 16);
      HexDigitInjective(a[0] % 16, b[0] % 16);
      assert Hex(a)[2..] == Hex(a[1..]) && Hex(b)[2..] == Hex(b[1..]);
      HexInjective(a[1..], b[1..]);
      assert a == [a[0]] + a[1..] && b == [b[0]] + b[1..];
    }
  }

  lemma HexDigitInjective(m: int, n: int)
    requires 0 <= m < 16 && 0 <= n < 16 && HEX[m] == HEX[n]
    ensures m == n
  {
  }

  /** Respellings of two codes agree exactly when the codes came from the same four bytes. */
  lemma RespellingsAgreeIffSameBytes(a: seq<Byte>, b: seq<Byte>, s: string, t: string)
    requires |a| == 4 && |b| == 4
    requires VerifyRecoveryCode(s, HashRecoveryCode(Format(a))) && VerifyRecoveryCode(t, HashRecoveryCode(Format(b)))
    ensures HashRecoveryCode(s) == HashRecoveryCode(t) <==> a == b
  {
    FormatNormalizes(a);
    FormatNormalizes(b);
    if HashRecoveryCode(s) == HashRecoveryCode(t) {
      HexInjective(a, b);
    }
  }

  lemma DashThenSpaceNoRespelling(bytes: seq<Byte>, lead: string, body: string, trail: string)
    requires |bytes| == 4
    ensures !Respells("- " + Format(bytes), lead, body, trail, bytes)
  {
    var s := "- " + Format(bytes);
    HexLength(bytes);
    HexIsDigits(bytes);
    assert s[0] == '-' && s[1] == ' ' && s[2] == Hex(bytes)[0];
    if s == lead + body + trail && AllSpace(lead) && AllSpace(trail) {
      assert lead == "";
      assert |body| >= 2 && body[1] == ' ';
      if Spells(body, Hex(bytes)) {
        SpellingHasNoSpace(body, Hex(bytes));
      }
    }
  }

  /** A dash outside the white space stops the trimming, so such a string is refused. */
  lemma DashOutsideSpaceRefused(bytes: seq<Byte>)
    requires |bytes| == 4
    ensures !VerifyRecoveryCode("- " + Format(bytes), HashRecoveryCode(Format(bytes)))
  {
    var s := "- " + Format(bytes);
    VerifiesIffRespelling(s, bytes);
    forall lead, body, trail ensures !Respells(s, lead, body, trail, bytes) {
      DashThenSpaceNoRespelling(bytes, lead, body, trail);
    }
  }

  // ---- The same on literal letters. ----

  /** What a digit is worth. */
  function Worth(c: char): int
    requires HexDigit(c)
  {
    if c <= '9' then c as int - '0' as int else c as int - 'A' as int + 10
  }

  /** The digits of a code are its bytes in hexadecimal, high digit first. */
  lemma {:induction false} HexIsWorth(bytes: seq<Byte>, i: nat)
    requires i < |bytes|
    ensures |Hex(bytes)| == 2 * |bytes|
    ensures HexDigit(Hex(bytes)[2 * i]) && HexDigit(Hex(bytes)[2 * i + 1])
    ensures 16 * Worth(Hex(bytes)[2 * i]) + Worth(Hex(bytes)[2 * i + 1]) == bytes[i]
  {
    HexLength(bytes);
    HexIsDigits(bytes);
    if i == 0 {
      DigitWorth(bytes[0] / 16);
      DigitWorth(bytes[0] % 16);
    } else {
      HexIsWorth(bytes[1..], i - 1);
      assert Hex(bytes)[2 * i] == Hex(bytes[1..])[2 * (i - 1)];
      assert Hex(bytes)[2 * i + 1] == Hex(bytes[1..])[2 * (i - 1) + 1];
    }
  }

  lemma DigitWorth(n: nat)
    requires n < 16
    ensures HexDigit(HEX[n]) && Worth(HEX[n]) == n
  {
  }

  /** A pair of digits, high one first, worth a byte. */
  predicate Writes(high: char, low: char, b: Byte) {
    HexDigit(high) && HexDigit(low) && 16 * Worth(high) + Worth(low) == b
  }

  /** A code reads as its four bytes in hexadecimal, in order, with a dash in the middle. */
  lemma FormatReads(bytes: seq<Byte>)
    requires |bytes| == 4
    ensures |Format(bytes)| == 9 && Format(bytes)[4] == '-'
    ensures var f := Format(bytes);
      && Writes(f[0], f[1], bytes[0]) && Writes(f[2], f[3], bytes[1])
      && Writes(f[5], f[6], bytes[2]) && Writes(f[7], f[8], bytes[3])
  {
    HexIsWorth(bytes, 0);
    HexIsWorth(bytes, 1);
    HexIsWorth(bytes, 2);
    HexIsWorth(bytes, 3);
    hide Hex;
  }

  /** The same letter, small. */
  function Small(c: char): char {
    if c == 'A' then 'a'
    else if c == 'B' then 'b'
    else if c == 'C' then 'c'
    else if c == 'D' then 'd'
    else if c == 'E' then 'e'
    else if c == 'F' then 'f'
    else c
  }

  function AllSmall(s: string): string {
    if s == "" then "" else [Small(s[0])] + AllSmall(s[1..])
  }

  lemma {:induction false} SmallSpells(digits: string)
    requires forall i :: 0 <= i < |digits| ==> HexDigit(digits[i])
    ensures Spells(AllSmall(digits), digits)
  {
    if digits != "" {
      SmallSpells(digits[1..]);
      assert AllSmall(digits)[1..] == AllSmall(digits[1..]);
    }
  }

  /** A code typed in small letters, without its dash, between a blank and a line break, verifies. */
  lemma SmallLettersVerify(bytes: seq<Byte>)
    requires |bytes| == 4
    ensures VerifyRecoveryCode(" " + AllSmall(Hex(bytes)) + "\n", HashRecoveryCode(Format(bytes)))
  {
    HexIsDigits(bytes);
    SmallSpells(Hex(bytes));
    FormatNormalizes(bytes);
    hide Normalize, Hex, AllSmall;
    RespellingVerifies(" " + AllSmall(Hex(bytes)) + "\n", " ", AllSmall(Hex(bytes)), "\n", bytes);
  }

  /** Ten codes and their hashes, from the random bytes read for them. */
  method GenerateRecoveryCodes(random: seq<seq<Byte>>) returns (codes: seq<string>, hashes: seq<Digest>)
    requires |random| == RECOVERY_CODE_COUNT && forall i :: 0 <= i < |random| ==> |random[i]| == 4
    ensures |codes| == |hashes| == RECOVERY_CODE_COUNT
    ensures forall i :: 0 <= i < |codes| ==> codes[i] == Format(random[i])
    ensures forall i, j :: 0 <= i < |codes| && 0 <= j < |codes| ==>
      (VerifyRecoveryCode(codes[i], hashes[j]) <==> random[i] == random[j])
  {
    codes, hashes := [], [];
    for n := 0 to RECOVERY_CODE_COUNT
      invariant |codes| == |hashes| == n
      invariant forall i :: 0 <= i < n ==> codes[i] == Format(random[i]) && hashes[i] == HashRecoveryCode(codes[i])
    {
      var c := Format(random[n]);
      codes := codes + [c];
      hashes := hashes + [HashRecoveryCode(c)];
    }
    forall i, j | 0 <= i < |codes| && 0 <= j < |codes|
      ensures VerifyRecoveryCode(codes[i], hashes[j]) <==> random[i] == random[j]
    {
      RespellingsAgreeIffSameBytes(random[i], random[j], codes[i], codes[j]);
    }
  }
}
