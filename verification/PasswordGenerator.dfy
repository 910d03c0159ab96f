/** Rejection-sampling password generation (cmd/wasm/main.go). */
module PasswordGenerator {
  import opened Prelude

  const UPPER_CHARS: string := "ABCDEFGHIJKLMNOPQRSTUVWXYZ"
  const LOWER_CHARS: string := "abcdefghijklmnopqrstuvwxyz"
  const DIGIT_CHARS: string := "0123456789"
  const SYMBOL_CHARS: string := "!@#$%^&*()_+-=[]{}|;:,.<>?"

  datatype Classes = Classes(upper: bool, lower: bool, digits: bool, symbols: bool)

  function Charset(c: Classes): string {
    (if c.upper then UPPER_CHARS else "") + (if c.lower then LOWER_CHARS else "")
    + (if c.digits then DIGIT_CHARS else "") + (if c.symbols then SYMBOL_CHARS else "")
  }

  /** The largest multiple of n that fits in a byte's range. */
  function MaxByte(n: int): int
    requires 1 <= n <= 256
  {
    256 - 256 % n
  }

  /** How many accepted bytes stand for each character. */
  function Share(n: int): nat
    requires 1 <= n <= 256
  {
    MaxByte(n) / n
  }

  /** The characters the accepted bytes stand for, in order. */
  function Draw(charset: string, bytes: seq<Byte>): (r: string)
    requires 1 <= |charset| <= 256
    ensures |r| <= |bytes|
  {
    if bytes == [] then ""
    else
      var b := bytes[|bytes| - 1];
      Draw(charset, bytes[..|bytes| - 1]) + if b < MaxByte(|charset|) then [charset[b % |charset|]] else ""
  }

  function Concat(chunks: seq<seq<Byte>>): seq<Byte> {
    if chunks == [] then [] else Concat(chunks[..|chunks| - 1]) + chunks[|chunks| - 1]
  }

  /** What the generator does with `length` and the random chunks it is given. */
  datatype Outcome = Password(text: string) | BadLength | NoClass | Starved

  lemma DrawSnoc(charset: string, done: seq<Byte>, b: Byte)
    requires 1 <= |charset| <= 256
    ensures Draw(charset, done + [b]) ==
      Draw(charset, done) + if b < MaxByte(|charset|) then [charset[b % |charset|]] else ""
  {
    assert (done + [b])[..|done|] == done;
  }

  lemma {:induction false} DrawPrefix(charset: string, a: seq<Byte>, b: seq<Byte>)
    requires 1 <= |charset| <= 256
    ensures Draw(charset, a) <= Draw(charset, a + b)
  {
    if b == [] {
      assert a + b == a;
    } else {
      DrawPrefix(charset, a, b[..|b| - 1]);
      assert (a + b)[..|a + b| - 1] == a + b[..|b| - 1];
    }
  }

  lemma {:induction false} ConcatPrefix(chunks: seq<seq<Byte>>, i: nat)
    requires i <= |chunks|
    ensures Concat(chunks[..i]) <= Concat(chunks)
    decreases |chunks| - i
  {
    if i < |chunks| {
      ConcatPrefix(chunks, i + 1);
      assert chunks[..i + 1][..i] == chunks[..i];
    } else {
      assert chunks[..i] == chunks;
    }
  }

  lemma ConcatSnoc(chunks: seq<seq<Byte>>, i: nat)
    requires i < |chunks|
    ensures Concat(chunks[..i + 1]) == Concat(chunks[..i]) + chunks[i]
  {
    assert chunks[..i + 1][..i] == chunks[..i];
  }

  /** Drawing on after the first `i` chunks and `j` bytes of the next changes nothing already drawn. */
  lemma DrawnSoFar(charset: string, chunks: seq<seq<Byte>>, i: nat, j: nat)
    requires 1 <= |charset| <= 256 && i < |chunks| && j <= |chunks[i]|
    ensures Draw(charset, Concat(chunks[..i]) + chunks[i][..j]) <= Draw(charset, Concat(chunks))
  {
    hide Draw, Concat;
    var done := Concat(chunks[..i]) + chunks[i][..j];
    ConcatSnoc(chunks, i);
    assert chunks[i] == chunks[i][..j] + chunks[i][j..];
    assert Concat(chunks[..i + 1]) == done + chunks[i][j..];
    ConcatPrefix(chunks, i + 1);
    var all := Concat(chunks);
    assert all == done + all[|done|..];
    DrawPrefix(charset, done, all[|done|..]);
  }

  lemma CharsetFits(c: Classes)
    ensures |Charset(c)| <= 88
  {
  }

  /** rand.Read: overwrite the whole buffer. */
  method Fill(buf: array<Byte>, random: seq<Byte>)
    requires buf.Length == |random|
    modifies buf
    ensures buf[..] == random
  {
    forall k | 0 <= k < buf.Length {
      buf[k] := random[k];
    }
  }

  /** Append what each accepted byte of the buffer stands for, breaking off once `length` is reached. */
  method TakeFrom(buf: array<Byte>, charset: string, length: nat, sofar: string, ghost done: seq<Byte>)
    returns (result: string, ghost used: nat)
    requires 1 <= |charset| <= 256 && sofar == Draw(charset, done) && |sofar| <= length
    ensures used <= buf.Length && result == Draw(charset, done + buf[..used]) && |result| <= length
    ensures |result| < length ==> used == buf.Length
  {
    hide Draw;
    var n := |charset|;
    var maxByte := MaxByte(n);
    result := sofar;
    var j := 0;
    assert done + buf[..0] == done;
    while j < buf.Length && |result| < length
      invariant 0 <= j <= buf.Length && |result| <= length
      invariant result == Draw(charset, done + buf[..j])
    {
      var b := buf[j];
      assert done + buf[..j + 1] == (done + buf[..j]) + [b];
      DrawSnoc(charset, done + buf[..j], b);
      if b < maxByte {
        result := result + [charset[b % n]];
      }
      j := j + 1;
    }
    used := j;
  }

  /**
   * The generator: refill one buffer, append what each accepted byte stands for,
   * and stop as soon as `length` characters are in. `chunks` is the random source;
   * Starved means it ran out first.
   */
  method GeneratePassword(length: int, c: Classes, chunks: seq<seq<Byte>>) returns (r: Outcome)
    requires forall i :: 0 <= i < |chunks| ==> |chunks[i]| == length * 4
    ensures r.BadLength? <==> length <= 0 || length > 128
    ensures r.NoClass? <==> 1 <= length <= 128 && Charset(c) == ""
    ensures 1 <= length <= 128 && Charset(c) != "" ==>
      && |Charset(c)| <= 256
      && (r.Starved? <==> |Draw(Charset(c), Concat(chunks))| < length)
      && (r.Password? ==> |r.text| == length && r.text <= Draw(Charset(c), Concat(chunks)))
  {
    if length <= 0 || length > 128 {
      return BadLength;
    }
    var charset := Charset(c);
    if |charset| == 0 {
      return NoClass;
    }
    CharsetFits(c);
    hide Draw, Charset, Concat;
    var result := "";
    var buf := new Byte[length * 4](_ => 0);
    var next := 0;
    while |result| < length
      invariant 0 <= next <= |chunks| && |result| <= length
      invariant |result| < length ==> result == Draw(charset, Concat(chunks[..next]))
      invariant result <= Draw(charset, Concat(chunks))
      decreases |chunks| - next, length - |result|
    {
      if next == |chunks| {
        assert chunks[..next] == chunks;
        return Starved;
      }
      Fill(buf, chunks[next]);
      assert Concat(chunks[..next]) + chunks[next][..0] == Concat(chunks[..next]);
      ghost var j;
      result, j := TakeFrom(buf, charset, length, result, Concat(chunks[..next]));
      DrawnSoFar(charset, chunks, next, j);
      ConcatSnoc(chunks, next);
      assert j == buf.Length ==> chunks[next][..j] == chunks[next];
      next := next + 1;
    }
    return Password(result);
  }

  // ---- No bias: every word is hit by equally many accepted byte strings. ----

  function Pow(b: nat, e: nat): nat {
    if e == 0 then 1 else b * Pow(b, e - 1)
  }

  /** A string of accepted bytes standing for `word`. */
  ghost predicate Spells(charset: string, bytes: seq<Byte>, word: string)
    requires 1 <= |charset| <= 256
  {
    && |bytes| == |word|
    && forall i :: 0 <= i < |word| ==> bytes[i] < MaxByte(|charset|) && charset[bytes[i] % |charset|] == word[i]
  }

  ghost predicate Distinct(charset: string) {
    forall i, j :: 0 <= i < j < |charset| ==> charset[i] != charset[j]
  }

  /** The bytes i, i + n, i + 2n, ..., `count` of them. */
  function Residues(n: nat, i: nat, count: nat): set<int> {
    if count == 0 then {} else Residues(n, i, count - 1) + {i + n * (count - 1)}
  }

  lemma {:induction false} ResiduesAre(n: nat, i: nat, count: nat)
    requires i < n
    ensures |Residues(n, i, count)| == count
    ensures forall b: int :: b in Residues(n, i, count) <==> 0 <= b < n * count && b % n == i
  {
    if count > 0 {
      ResiduesAre(n, i, count - 1);
      var low := n * (count - 1);
      assert n * count == low + n;
      forall b: int
        ensures b in Residues(n, i, count) <==> 0 <= b < n * count && b % n == i
      {
        if low <= b < low + n {
          DivUnique(b, n, count - 1, b - low);
        }
      }
    }
  }

  lemma MultipleBeyond(n: int, d: int)
    requires 0 <= n
    ensures d >= 1 ==> n * d >= n
    ensures d <= -1 ==> n * d <= -n
  {
    if d >= 1 {
      assert n * d == n + n * (d - 1);
    } else if d <= -1 {
      assert n * d == -n + n * (d + 1);
    }
  }

  lemma DivUnique(a: int, n: nat, q: int, r: int)
    requires 0 <= r < n && a == r + n * q
    ensures a / n == q && a % n == r
  {
    var d := a / n - q;
    assert a == n * (a / n) + a % n;
    assert n * d == n * (a / n) - n * q;
    MultipleBeyond(n, d);
  }

  /** The bytes accepted are those below the largest multiple of n up to 256. */
  lemma MaxByteIsLargest(n: int)
    requires 1 <= n <= 256
    ensures MaxByte(n) % n == 0 && 256 - n < MaxByte(n) <= 256
  {
    assert MaxByte(n) == n * (256 / n);
    DivUnique(MaxByte(n), n, 256 / n, 0);
  }

  /** The accepted bytes standing for one character. */
  ghost function BytesFor(charset: string, c: char): set<Byte>
    requires 1 <= |charset| <= 256
  {
    set b: Byte | 0 <= b < 256 && b < MaxByte(|charset|) && charset[b % |charset|] == c
  }

  lemma CharacterWeight(charset: string, i: nat)
    requires 1 <= |charset| <= 256 && Distinct(charset) && i < |charset|
    ensures |BytesFor(charset, charset[i])| == Share(|charset|)
  {
    var n := |charset|;
    var q := 256 / n;
    assert MaxByte(n) == n * q;
    DivUnique(n * q, n, q, 0);
    ResiduesAre(n, i, q);
    var residues := Residues(n, i, q);
    var bytes: set<int> := set b: Byte | b in BytesFor(charset, charset[i]) :: b as int;
    forall b: int ensures b in bytes <==> b in residues {
      if 0 <= b < MaxByte(n) && charset[b % n] == charset[i] {
        assert b % n == i;
        var x: Byte := b;
        assert x in BytesFor(charset, charset[i]);
      }
    }
    assert bytes == residues;
    assert BytesFor(charset, charset[i]) == bytes;
  }

  /** Every way of putting one of `heads` before one of `tails`. */
  ghost function Product(heads: set<Byte>, tails: set<seq<Byte>>): set<seq<Byte>> {
    set h, t | h in heads && t in tails :: [h] + t
  }

  lemma ProductSplits(a: set<Byte>, b: set<Byte>, tails: set<seq<Byte>>)
    requires a !! b
    ensures Product(a, tails) !! Product(b, tails)
    ensures Product(a + b, tails) == Product(a, tails) + Product(b, tails)
  {
    forall s | s in Product(a, tails) ensures s !in Product(b, tails) {
      assert s[0] in a;
    }
  }

  lemma ProductOfNone(tails: set<seq<Byte>>)
    ensures Product({}, tails) == {}
  {
  }

  lemma OneMore(m: int, n: int)
    ensures (m + 1) * n == m * n + n
  {
  }

  lemma {:induction false} ProductSize(heads: set<Byte>, tails: set<seq<Byte>>)
    ensures |Product(heads, tails)| == |heads| * |tails|
    decreases |heads|
  {
    ProductOfNone(tails);
    hide Product;
    if heads != {} {
      var h :| h in heads;
      var rest := heads - {h};
      ProductSize(rest, tails);
      SliceSize(h, tails);
      assert heads == rest + {h};
      ProductSplits(rest, {h}, tails);
      OneMore(|rest|, |tails|);
    }
  }

  lemma {:induction false} SliceSize(h: Byte, tails: set<seq<Byte>>)
    ensures |Product({h}, tails)| == |tails|
    decreases |tails|
  {
    if tails == {} {
      assert Product({h}, tails) == {};
    } else {
      var t :| t in tails;
      SliceSize(h, tails - {t});
      assert tails == (tails - {t}) + {t};
      assert Product({h}, tails) == Product({h}, tails - {t}) + {[h] + t};
      assert [h] + t !in Product({h}, tails - {t}) by {
        forall s | s in tails - {t} ensures [h] + s != [h] + t {
          assert ([h] + s)[1..] == s && ([h] + t)[1..] == t;
        }
      }
    }
  }

  /** Exactly the accepted byte strings standing for `word`. */
  ghost function StringsFor(charset: string, word: string): set<seq<Byte>>
    requires 1 <= |charset| <= 256
  {
    if word == "" then {[]} else Product(BytesFor(charset, word[0]), StringsFor(charset, word[1..]))
  }

  lemma {:induction false} StringsForExact(charset: string, word: string, bytes: seq<Byte>)
    requires 1 <= |charset| <= 256
    ensures bytes in StringsFor(charset, word) <==> Spells(charset, bytes, word)
  {
    if word != "" {
      if bytes == [] {
        assert forall h: Byte, t: seq<Byte> :: [h] + t != [];
      } else {
        StringsForExact(charset, word[1..], bytes[1..]);
        assert bytes == [bytes[0]] + bytes[1..];
        if bytes in StringsFor(charset, word) {
          var h, t :| h in BytesFor(charset, word[0]) && t in StringsFor(charset, word[1..]) && bytes == [h] + t;
          assert bytes[1..] == t;
          forall i | 0 <= i < |word|
            ensures bytes[i] < MaxByte(|charset|) && charset[bytes[i] % |charset|] == word[i]
          {
            if i > 0 {
              assert bytes[i] == bytes[1..][i - 1] && word[i] == word[1..][i - 1];
            }
          }
        }
        if Spells(charset, bytes, word) {
          assert Spells(charset, bytes[1..], word[1..]);
        }
      }
    }
  }

  /**
   * Every word over the charset is spelled by exactly (maxByte / n) ^ length
   * strings of accepted bytes, so uniform bytes give uniform passwords.
   */
  lemma {:induction false} Unbiased(charset: string, word: string)
    requires 1 <= |charset| <= 256 && Distinct(charset)
    requires forall i :: 0 <= i < |word| ==> word[i] in charset
    ensures |StringsFor(charset, word)| == Pow(Share(|charset|), |word|)
  {
    if word != "" {
      Unbiased(charset, word[1..]);
      assert word[0] in charset;
      var i :| 0 <= i < |charset| && charset[i] == word[0];
      CharacterWeight(charset, i);
      ProductSize(BytesFor(charset, word[0]), StringsFor(charset, word[1..]));
    }
  }

  ghost predicate AllAccepted(charset: string, bytes: seq<Byte>)
    requires 1 <= |charset| <= 256
  {
    forall i :: 0 <= i < |bytes| ==> bytes[i] < MaxByte(|charset|)
  }

  lemma DrawNothing(charset: string)
    requires 1 <= |charset| <= 256
    ensures Draw(charset, []) == ""
  {
  }

  /** The bytes below the largest multiple of n, in order. */
  function Accepted(n: int, bytes: seq<Byte>): (r: seq<Byte>)
    requires 1 <= n <= 256
    ensures forall i :: 0 <= i < |r| ==> r[i] < MaxByte(n)
  {
    if bytes == [] then []
    else
      var b := bytes[|bytes| - 1];
      Accepted(n, bytes[..|bytes| - 1]) + if b < MaxByte(n) then [b] else []
  }

  /** Whatever bytes are drawn, the password's letters are those of the accepted ones, one each. */
  lemma {:induction false} DrawIsOfAccepted(charset: string, bytes: seq<Byte>)
    requires 1 <= |charset| <= 256
    ensures Draw(charset, bytes) == Draw(charset, Accepted(|charset|, bytes))
    ensures |Draw(charset, bytes)| == |Accepted(|charset|, bytes)|
    ensures forall i :: 0 <= i < |Draw(charset, bytes)| ==>
      Draw(charset, bytes)[i] == charset[Accepted(|charset|, bytes)[i] % |charset|]
  {
    hide MaxByte;
    DrawOfAccepted(charset, Accepted(|charset|, bytes));
    if bytes != [] {
      var init, b := bytes[..|bytes| - 1], bytes[|bytes| - 1];
      DrawIsOfAccepted(charset, init);
      if b < MaxByte(|charset|) {
        DrawSnoc(charset, Accepted(|charset|, init), b);
      }
    }
  }

  lemma {:induction false} DrawOfAccepted(charset: string, bytes: seq<Byte>)
    requires 1 <= |charset| <= 256 && AllAccepted(charset, bytes)
    ensures |Draw(charset, bytes)| == |bytes|
    ensures forall i :: 0 <= i < |bytes| ==> Draw(charset, bytes)[i] == charset[bytes[i] % |charset|]
  {
    hide Draw, MaxByte;
    if bytes == [] {
      DrawNothing(charset);
    } else {
      var init, b := bytes[..|bytes| - 1], bytes[|bytes| - 1];
      DrawOfAccepted(charset, init);
      DrawSnoc(charset, init, b);
      assert bytes == init + [b];
    }
  }

  /** The charset of some choice of classes; CharsetFits bounds its length for every choice. */
  ghost predicate FromClasses(charset: string) {
    exists c :: charset == Charset(c)
  }

  lemma ClassesDistinct(charset: string)
    requires FromClasses(charset)
    ensures Distinct(charset)
  {
    var c :| charset == Charset(c);
    CharsetDistinct(c);
  }

  /**
   * For every choice of classes and every word over their charset, the strings of
   * accepted bytes the generator turns into that word are (maxByte / n) ^ length in
   * number, the same for every word of that length.
   */
  lemma {:induction false} GeneratorUnbiased(charset: string, word: string) returns (sources: set<seq<Byte>>)
    requires 1 <= |charset| <= 88 && FromClasses(charset)
    requires forall i :: 0 <= i < |word| ==> word[i] in charset
    ensures forall bytes :: bytes in sources <==> AllAccepted(charset, bytes) && Draw(charset, bytes) == word
    ensures |sources| == Pow(Share(|charset|), |word|)
  {
    ClassesDistinct(charset);
    hide FromClasses, Share, Pow;
    Unbiased(charset, word);
    sources := StringsFor(charset, word);
    forall bytes
      ensures bytes in sources <==> AllAccepted(charset, bytes) && Draw(charset, bytes) == word
    {
      StringsForExact(charset, word, bytes);
      if AllAccepted(charset, bytes) {
        DrawOfAccepted(charset, bytes);
      }
    }
  }

  /** The charset is the letters, digits and symbols of the classes chosen, and nothing else. */
  lemma CharsetIs(c: Classes, x: char)
    ensures x in Charset(c) <==>
      || (c.upper && 'A' <= x <= 'Z') || (c.lower && 'a' <= x <= 'z') || (c.digits && '0' <= x <= '9')
      || (c.symbols && x in "!@#$%^&*()_+-=[]{}|;:,.<>?")
  {
    UpperIs(x);
    LowerIs(x);
    DigitsAre(x);
    var u := if c.upper then UPPER_CHARS else "";
    var l := if c.lower then LOWER_CHARS else "";
    var d := if c.digits then DIGIT_CHARS else "";
    var s := if c.symbols then SYMBOL_CHARS else "";
    assert Charset(c) == u + l + d + s;
    assert c.symbols ==> (x in s <==> x in "!@#$%^&*()_+-=[]{}|;:,.<>?");
    hide *;
  }

  lemma UpperIs(x: char)
    ensures x in UPPER_CHARS <==> 'A' <= x <= 'Z'
  {
    assert forall i :: 0 <= i < 26 ==> UPPER_CHARS[i] as int == 'A' as int + i;
    if 'A' <= x <= 'Z' {
      assert UPPER_CHARS[x as int - 'A' as int] == x;
    }
  }

  lemma LowerIs(x: char)
    ensures x in LOWER_CHARS <==> 'a' <= x <= 'z'
  {
    assert forall i :: 0 <= i < 26 ==> LOWER_CHARS[i] as int == 'a' as int + i;
    if 'a' <= x <= 'z' {
      assert LOWER_CHARS[x as int - 'a' as int] == x;
    }
  }

  lemma DigitsAre(x: char)
    ensures x in DIGIT_CHARS <==> '0' <= x <= '9'
  {
    assert forall i :: 0 <= i < 10 ==> DIGIT_CHARS[i] as int == '0' as int + i;
    if '0' <= x <= '9' {
      assert DIGIT_CHARS[x as int - '0' as int] == x;
    }
  }

  /** Which class a character belongs to. */
  function Class(c: char): nat {
    if 'A' <= c <= 'Z' then 0 else if 'a' <= c <= 'z' then 1 else if '0' <= c <= '9' then 2 else 3
  }

  ghost predicate AllOf(s: string, lowest: nat, below: nat) {
    forall i :: 0 <= i < |s| ==> lowest <= Class(s[i]) < below
  }

  lemma DistinctAppend(a: string, b: string, lowest: nat, mid: nat, below: nat)
    requires Distinct(a) && Distinct(b) && AllOf(a, lowest, mid) && AllOf(b, mid, below) && lowest <= mid <= below
    ensures Distinct(a + b) && AllOf(a + b, lowest, below)
  {
  }

  lemma CharsetDistinct(c: Classes)
    ensures Distinct(Charset(c))
  {
    var u := if c.upper then UPPER_CHARS else "";
    var l := if c.lower then LOWER_CHARS else "";
    var d := if c.digits then DIGIT_CHARS else "";
    var s := if c.symbols then SYMBOL_CHARS else "";
    UpperDistinct();
    LowerDistinct();
    DigitsDistinct();
    SymbolsDistinct();
    SymbolsAreSymbols();
    assert Charset(c) == u + l + d + s;
    hide *;
    DistinctAppend(u, l, 0, 1, 2);
    DistinctAppend(u + l, d, 0, 2, 3);
    DistinctAppend(u + l + d, s, 0, 3, 4);
  }

  lemma UpperDistinct()
    ensures Distinct(UPPER_CHARS) && AllOf(UPPER_CHARS, 0, 1) && Distinct("") && AllOf("", 0, 1)
  {
    assert forall i :: 0 <= i < 26 ==> UPPER_CHARS[i] as int == 'A' as int + i;
  }

  lemma LowerDistinct()
    ensures Distinct(LOWER_CHARS) && AllOf(LOWER_CHARS, 1, 2) && AllOf("", 1, 2)
  {
    assert forall i :: 0 <= i < 26 ==> LOWER_CHARS[i] as int == 'a' as int + i;
  }

  lemma DigitsDistinct()
    ensures Distinct(DIGIT_CHARS) && AllOf(DIGIT_CHARS, 2, 3) && AllOf("", 2, 3)
  {
    assert forall i :: 0 <= i < 10 ==> DIGIT_CHARS[i] as int == '0' as int + i;
  }

  /** Where a symbol stands among the symbols. */
  function Place(c: char): nat {
    if c == '!' then 0
    else if c == '@' then 1
    else if c == '#' then 2
    else if c == '$' then 3
    else if c == '%' then 4
    else if c == '^' then 5
    else if c == '&' then 6
    else if c == '*' then 7
    else if c == '(' then 8
    else if c == ')' then 9
    else if c == '_' then 10
    else if c == '+' then 11
    else if c == '-' then 12
    else if c == '=' then 13
    else if c == '[' then 14
    else if c == ']' then 15
    else if c == '{' then 16
    else if c == '}' then 17
    else if c == '|' then 18
    else if c == ';' then 19
    else if c == ':' then 20
    else if c == ',' then 21
    else if c == '.' then 22
    else if c == '<' then 23
    else if c == '>' then 24
    else 25
  }

  lemma SymbolsDistinct()
    ensures Distinct(SYMBOL_CHARS)
  {
    assert forall i :: 0 <= i < 26 ==> Place(SYMBOL_CHARS[i]) == i;
    hide Place;
  }

  lemma SymbolsAreSymbols()
    ensures AllOf(SYMBOL_CHARS, 3, 4) && AllOf("", 3, 4)
  {
  }
}
