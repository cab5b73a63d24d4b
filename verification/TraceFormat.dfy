// The text of one trace line: how the generator prints an access, how the parser reads a line,
// and what reading makes of what was printed.
module TraceFormat {
  import opened MachineIntegers

  datatype Option<T> = None | Some(value: T)

  datatype Access = Access(isWrite: bool, address: nat, coreId: Option<nat>)

  datatype ParseError = InvalidAccessType | InvalidAddressFormat | UnknownError | InvalidJsonFormat

  datatype Result<T> = Ok(value: T) | Err(error: ParseError)

  // The accesses that fit the 32-bit fields of the source.
  ghost predicate Fits(a: Access) {
    a.address < U32_LIMIT && (a.coreId.Some? ==> a.coreId.value < U32_LIMIT)
  }

  // ---------- Characters ----------

  predicate IsSpace(c: char) {
    c == ' ' || '\t' <= c <= '\r'
  }

  predicate AllSpace(s: string) {
    forall k :: 0 <= k < |s| ==> IsSpace(s[k])
  }

  predicate NoSpace(s: string) {
    forall k :: 0 <= k < |s| ==> !IsSpace(s[k])
  }

  // 36 for anything that is no digit in any base.
  function DigitValue(c: char): nat {
    if '0' <= c <= '9' then c as nat - '0' as nat
    else if 'a' <= c <= 'z' then c as nat - 'a' as nat + 10
    else if 'A' <= c <= 'Z' then c as nat - 'A' as nat + 10
    else 36
  }

  function DigitChar(d: nat): (c: char)
    requires d < 16
    ensures DigitValue(c) == d && !IsSpace(c) && c != '#'
  {
    if d < 10 then ('0' as nat + d) as char else ('a' as nat + d - 10) as char
  }

  // ---------- Numbers ----------

  // A number as the output stream prints it.
  function Digits(n: nat, base: nat): (s: string)
    requires 2 <= base <= 16
  {
    if n < base then [DigitChar(n)] else Digits(n / base, base) + [DigitChar(n % base)]
  }

  function DigitRun(s: string, base: nat): (n: nat)
    ensures n <= |s|
  {
    if s != "" && DigitValue(s[0]) < base then 1 + DigitRun(s[1..], base) else 0
  }

  function ValueOf(s: string, base: nat): nat {
    if s == "" then 0 else ValueOf(s[..|s| - 1], base) * base + DigitValue(s[|s| - 1])
  }

  datatype Scan = NoNumber | OutOfRange | Number(value: nat, length: nat)

  // The conversion of the longest run of digits to an unsigned 32-bit number.
  function FromChars(s: string, base: nat): Scan {
    var n := DigitRun(s, base);
    if n == 0 then NoNumber
    else if ValueOf(s[..n], base) >= U32_LIMIT then OutOfRange
    else Number(ValueOf(s[..n], base), n)
  }

  ghost predicate AllDigits(s: string, base: nat) {
    forall k :: 0 <= k < |s| ==> DigitValue(s[k]) < base && !IsSpace(s[k]) && s[k] != '#'
  }

  lemma {:induction false} DigitsReadBack(n: nat, base: nat)
    requires 2 <= base <= 16
    ensures ValueOf(Digits(n, base), base) == n && |Digits(n, base)| > 0 && AllDigits(Digits(n, base), base)
  {
    if n < base {
      OneDigit(n, base);
    } else {
      DigitsReadBack(n / base, base);
      DigitsSnoc(Digits(n / base, base), n % base, base);
      QuotientAndRest(n, base);
    }
    hide ValueOf, AllDigits, DigitChar;
  }

  lemma {:induction false} OneDigit(n: nat, base: nat)
    requires n < base <= 16
    ensures ValueOf([DigitChar(n)], base) == n && AllDigits([DigitChar(n)], base)
  {
    DigitsSnoc("", n, base);
    assert "" + [DigitChar(n)] == [DigitChar(n)];
  }

  lemma {:induction false} QuotientAndRest(n: nat, base: nat)
    requires base > 0
    ensures n / base * base + n % base == n
  {
  }

  lemma {:induction false} DigitsSnoc(s: string, d: nat, base: nat)
    requires d < base <= 16 && AllDigits(s, base)
    ensures ValueOf(s + [DigitChar(d)], base) == ValueOf(s, base) * base + d && AllDigits(s + [DigitChar(d)], base)
  {
    var t := s + [DigitChar(d)];
    assert t[..|t| - 1] == s && t[|t| - 1] == DigitChar(d);
    assert forall k :: 0 <= k < |t| ==> t[k] == if k < |s| then s[k] else DigitChar(d);
  }

  lemma {:induction false} FullRun(s: string, base: nat)
    requires AllDigits(s, base)
    ensures DigitRun(s, base) == |s|
  {
    if s != "" { FullRun(s[1..], base); }
  }

  lemma {:induction false} RunEnds(digits: string, rest: string, base: nat)
    requires AllDigits(digits, base) && base <= 36
    requires rest == "" || DigitValue(rest[0]) >= base
    ensures DigitRun(digits + rest, base) == |digits|
  {
    if digits == "" {
      assert digits + rest == rest;
    } else {
      assert (digits + rest)[1..] == digits[1..] + rest;
      RunEnds(digits[1..], rest, base);
    }
  }

  // Reading a printed number gives it back exactly when it fits 32 bits, and otherwise nothing.
  lemma {:induction false} NumberRoundTrip(n: nat, base: nat)
    requires 2 <= base <= 16
    ensures FromChars(Digits(n, base), base) == if n < U32_LIMIT then Number(n, |Digits(n, base)|) else OutOfRange
  {
    var s := Digits(n, base);
    DigitsReadBack(n, base);
    FullRun(s, base);
    assert s[..|s|] == s;
  }

  // ---------- Addresses ----------

  function NonSpace(s: string): (r: string)
    ensures NoSpace(s) ==> r == s
  {
    if s == "" then "" else NonSpace(s[..|s| - 1]) + if IsSpace(s[|s| - 1]) then "" else [s[|s| - 1]]
  }

  function HexAddress(clean: string): (r: Option<nat>)
    ensures r.Some? ==> r.value < U32_LIMIT
  {
    if |clean| > 2 && clean[0] == '0' && (clean[1] == 'x' || clean[1] == 'X') then
      match FromChars(clean[2..], 16)
      case Number(v, n) => if n == |clean| - 2 then Some(v) else None
      case _ => None
    else None
  }

  function AddressOf(text: string): (r: Option<nat>)
    ensures r.Some? ==> r.value < U32_LIMIT
  {
    var clean := NonSpace(text);
    if HexAddress(clean).Some? then HexAddress(clean)
    else match FromChars(clean, 10) case Number(v, _) => Some(v) case _ => None
  }

  lemma {:induction false} PrefixedDigits(n: nat)
    ensures var s := "0x" + Digits(n, 16); |s| > 2 && s[2..] == Digits(n, 16) && IsWord(s)
  {
    DigitsReadBack(n, 16);
    var s := "0x" + Digits(n, 16);
    forall k | 0 <= k < |s|
      ensures !IsSpace(s[k]) && s[k] != '#'
    {
      if k >= 2 { assert s[k] == Digits(n, 16)[k - 2]; }
    }
  }

  lemma {:induction false} PrefixedHex(n: nat)
    ensures HexAddress("0x" + Digits(n, 16)) == if n < U32_LIMIT then Some(n) else None
  {
    PrefixedDigits(n);
    NumberRoundTrip(n, 16);
    hide FromChars, Digits;
  }

  lemma {:induction false} LeadingZero(s: string)
    requires |s| >= 2 && s[0] == '0' && DigitValue(s[1]) >= 10
    ensures FromChars(s, 10) == Number(0, 1)
  {
    assert DigitRun(s[1..], 10) == 0;
    assert s[..1] == "0";
    assert ValueOf("0", 10) == ValueOf("0"[..0], 10) * 10 + 0;
  }

  // A hexadecimal address too wide for 32 bits is not refused: the decimal fallback reads its leading 0.
  lemma {:induction false} HexRoundTrip(n: nat)
    ensures IsWord("0x" + Digits(n, 16))
    ensures AddressOf("0x" + Digits(n, 16)) == Some(if n < U32_LIMIT then n else 0)
  {
    PrefixedDigits(n);
    PrefixedHex(n);
    LeadingZero("0x" + Digits(n, 16));
    hide HexAddress, FromChars, Digits, NonSpace;
  }

  // ---------- Lines ----------

  function FindHash(line: string): (n: nat)
    ensures n <= |line| && (forall k :: 0 <= k < n ==> line[k] != '#')
    ensures n < |line| ==> line[n] == '#'
  {
    if line == "" || line[0] == '#' then 0 else 1 + FindHash(line[1..])
  }

  function BeforeHash(line: string): string { line[..FindHash(line)] }

  function TrimRight(s: string): string {
    if s != "" && IsSpace(s[|s| - 1]) then TrimRight(s[..|s| - 1]) else s
  }

  function SkipSpace(s: string): string {
    if s != "" && IsSpace(s[0]) then SkipSpace(s[1..]) else s
  }

  function WordLength(s: string): (n: nat)
    ensures n <= |s|
  {
    if s == "" || IsSpace(s[0]) then 0 else 1 + WordLength(s[1..])
  }

  // One extraction from the string stream; the empty word is a failed one.
  function NextWord(s: string): (r: (string, string)) {
    var t := SkipSpace(s);
    (t[..WordLength(t)], t[WordLength(t)..])
  }

  function CoreIdOf(token: string): (r: Option<nat>)
    ensures r.Some? ==> r.value < U32_LIMIT
  {
    if |token| >= 2 && (token[0] == 'P' || token[0] == 'p') then
      match FromChars(token[1..], 10) case Number(v, _) => Some(v) case _ => None
    else None
  }

  function AccessOf(kind: string, address: string, coreId: Option<nat>): Result<Access> {
    if !(kind == "r" || kind == "R" || kind == "w" || kind == "W") then Err(InvalidAccessType)
    else match AddressOf(address)
      case None => Err(InvalidAddressFormat)
      case Some(a) => Ok(Access(kind == "w" || kind == "W", a, coreId))
  }

  // What a text line means.
  function LineMeaning(line: string): Result<Access> {
    var body := TrimRight(BeforeHash(line));
    var (token1, rest1) := NextWord(body);
    var (token2, rest2) := NextWord(rest1);
    var (token3, _) := NextWord(rest2);
    if body == "" || token1 == "" || token2 == "" then Err(UnknownError)
    else if token3 != "" then AccessOf(token2, token3, CoreIdOf(token1))
    else AccessOf(token1, token2, None)
  }

  lemma {:induction false} MeaningFits(line: string)
    ensures LineMeaning(line).Ok? ==> Fits(LineMeaning(line).value)
  {
  }

  // ---------- The printed line ----------

  function Prefix(a: Access): string {
    if a.coreId.Some? then "P" + Digits(a.coreId.value, 10) + " " else ""
  }

  function Printed(a: Access): string {
    Prefix(a) + (if a.isWrite then "w " else "r ") + "0x" + Digits(a.address, 16)
  }

  // White space and then nothing or a comment.
  ghost predicate Trailing(c: string) { AllSpace(BeforeHash(c)) }

  lemma {:induction false} TrailingCut(body: string, c: string)
    requires body != "" && !IsSpace(body[|body| - 1]) && '#' !in body && Trailing(c)
    ensures TrimRight(BeforeHash(body + c)) == body
  {
    FindHashSkips(body, c);
    assert BeforeHash(body + c) == body + BeforeHash(c);
    TrimSpaces(body, BeforeHash(c));
  }

  lemma {:induction false} FindHashSkips(body: string, c: string)
    requires '#' !in body
    ensures FindHash(body + c) == |body| + FindHash(c)
  {
    if body == "" {
      assert body + c == c;
    } else {
      assert (body + c)[1..] == body[1..] + c;
      FindHashSkips(body[1..], c);
    }
  }

  lemma {:induction false} TrimSpaces(body: string, spaces: string)
    requires body == "" || !IsSpace(body[|body| - 1])
    requires AllSpace(spaces)
    ensures TrimRight(body + spaces) == body
  {
    if spaces == "" {
      assert body + spaces == body;
    } else {
      var shorter := spaces[..|spaces| - 1];
      assert (body + spaces)[..|body + spaces| - 1] == body + shorter;
      TrimSpaces(body, shorter);
    }
  }

  lemma {:induction false} WordEnds(word: string, rest: string)
    requires NoSpace(word) && (rest == "" || IsSpace(rest[0]))
    ensures WordLength(word + rest) == |word|
  {
    if word == "" {
      assert word + rest == rest;
    } else {
      assert (word + rest)[1..] == word[1..] + rest;
      WordEnds(word[1..], rest);
    }
  }

  lemma {:induction false} SkipLead(lead: string, s: string)
    requires AllSpace(lead) && s != "" && !IsSpace(s[0])
    ensures SkipSpace(lead + s) == s
  {
    if lead == "" {
      assert lead + s == s;
    } else {
      assert (lead + s)[1..] == lead[1..] + s;
      SkipLead(lead[1..], s);
    }
  }

  ghost predicate IsWord(word: string) { word != "" && NoSpace(word) && '#' !in word }

  lemma {:induction false} NextWordIs(lead: string, word: string, rest: string)
    requires AllSpace(lead) && IsWord(word) && (rest == "" || IsSpace(rest[0]))
    ensures NextWord(lead + (word + rest)) == (word, rest)
  {
    SkipLead(lead, word + rest);
    WordEnds(word, rest);
    assert (word + rest)[..|word|] == word && (word + rest)[|word|..] == rest;
  }

  lemma {:induction false} PrintedShape(a: Access)
    ensures var s := Printed(a); s != "" && !IsSpace(s[|s| - 1]) && '#' !in s && '\n' !in s
    ensures Printed(a)[0] in {'P', 'r', 'w'}
  {
    DigitsReadBack(a.address, 16);
    if a.coreId.Some? { DigitsReadBack(a.coreId.value, 10); }
    var s, kind, hex := Printed(a), (if a.isWrite then "w " else "r "), Digits(a.address, 16);
    assert s[|s| - 1] == hex[|hex| - 1];
    assert '#' !in Prefix(a) && '\n' !in Prefix(a);
    assert '#' !in hex && '\n' !in hex;
    assert s[0] == if a.coreId.Some? then 'P' else kind[0];
  }

  // What 32-bit fields keep of an access.
  function Narrowed(a: Access): Access {
    a.(address := if a.address < U32_LIMIT then a.address else 0,
       coreId := if a.coreId.Some? && a.coreId.value < U32_LIMIT then a.coreId else None)
  }

  lemma {:induction false} NothingLeft()
    ensures NextWord("") == ("", "")
  {
  }

  ghost predicate IsGap(gap: string) { gap != "" && AllSpace(gap) }

  // Lines of one, two and three words; any white space may lead and separate them.
  lemma {:induction false} MeaningOfOne(line: string, lead: string, word1: string)
    requires AllSpace(lead) && IsWord(word1)
    requires TrimRight(BeforeHash(line)) == lead + (word1 + "")
    ensures LineMeaning(line) == Err(UnknownError)
  {
    NextWordIs(lead, word1, "");
    NothingLeft();
    hide NextWord, AccessOf, TrimRight, BeforeHash;
  }

  lemma {:induction false} MeaningOfTwo(line: string, lead: string, word1: string, gap: string, word2: string)
    requires AllSpace(lead) && IsWord(word1) && IsGap(gap) && IsWord(word2)
    requires TrimRight(BeforeHash(line)) == lead + (word1 + (gap + (word2 + "")))
    ensures LineMeaning(line) == AccessOf(word1, word2, None)
  {
    NextWordIs(lead, word1, gap + (word2 + ""));
    NextWordIs(gap, word2, "");
    NothingLeft();
    hide NextWord, AccessOf, TrimRight, BeforeHash;
  }

  lemma {:induction false} MeaningOfThree(line: string, lead: string, word1: string, gap1: string, word2: string,
                                          gap2: string, word3: string)
    requires AllSpace(lead) && IsWord(word1) && IsGap(gap1) && IsWord(word2) && IsGap(gap2) && IsWord(word3)
    requires TrimRight(BeforeHash(line)) == lead + (word1 + (gap1 + (word2 + (gap2 + (word3 + "")))))
    ensures LineMeaning(line) == AccessOf(word2, word3, CoreIdOf(word1))
  {
    NextWordIs(lead, word1, gap1 + (word2 + (gap2 + (word3 + ""))));
    NextWordIs(gap1, word2, gap2 + (word3 + ""));
    NextWordIs(gap2, word3, "");
    hide NextWord, AccessOf, CoreIdOf, TrimRight, BeforeHash;
  }
}
