// The ways a trace line may be written by hand: the letter of its kind and of its processor in
// either case, the address hexadecimal in any case or decimal, leading zeros, any white space. Each
// reads as the access it spells; and which lines are refused, and why.
module TraceForms {
  import opened MachineIntegers
  import opened TraceFormat

  // ---------- Numbers spelt out ----------

  // A letter's upper case, and any other character itself.
  function UpperCase(c: char): char {
    match c
    case 'a' => 'A' case 'b' => 'B' case 'c' => 'C' case 'd' => 'D' case 'e' => 'E' case 'f' => 'F'
    case _ => c
  }

  // Zeros and then the digits of n, each letter in either case.
  ghost predicate Spells(text: string, n: nat, base: nat)
    requires 2 <= base <= 16
  {
    var digits := Digits(n, base);
    && |digits| <= |text|
    && (forall k :: 0 <= k < |text| - |digits| ==> text[k] == '0')
    && (forall k :: 0 <= k < |digits| ==>
          var c := text[|text| - |digits| + k]; c == digits[k] || c == UpperCase(digits[k]))
  }

  lemma {:induction false} SameValue(s: string, t: string, base: nat)
    requires |s| == |t| && forall k :: 0 <= k < |s| ==> DigitValue(s[k]) == DigitValue(t[k])
    ensures ValueOf(s, base) == ValueOf(t, base)
  {
    if s != "" {
      SameValue(s[..|s| - 1], t[..|t| - 1], base);
    }
  }

  lemma {:induction false} LeadingZeros(zeros: string, t: string, base: nat)
    requires forall k :: 0 <= k < |zeros| ==> zeros[k] == '0'
    ensures ValueOf(zeros + t, base) == ValueOf(t, base)
  {
    if t != "" {
      assert (zeros + t)[..|zeros + t| - 1] == zeros + t[..|t| - 1];
      LeadingZeros(zeros, t[..|t| - 1], base);
    } else if zeros != "" {
      assert zeros + t == zeros && (zeros + t)[..|zeros| - 1] == zeros[..|zeros| - 1];
      LeadingZeros(zeros[..|zeros| - 1], "", base);
      assert zeros[..|zeros| - 1] + "" == zeros[..|zeros| - 1];
    }
  }

  lemma {:induction false} UpperCaseValue(c: char)
    requires DigitValue(c) < 16
    ensures DigitValue(UpperCase(c)) == DigitValue(c) && !IsSpace(UpperCase(c)) && UpperCase(c) != '#'
  {
  }

  lemma {:induction false} SpelledLength(text: string, n: nat, base: nat)
    requires 2 <= base <= 16 && Spells(text, n, base)
    ensures 0 < |Digits(n, base)| <= |text|
  {
    DigitsReadBack(n, base);
    hide Digits, AllDigits;
  }

  lemma {:induction false} SpelledZero(text: string, n: nat, base: nat, k: nat)
    requires 2 <= base <= 16 && Spells(text, n, base) && k < |text| - |Digits(n, base)|
    ensures text[k] == '0'
  {
    hide Digits;
  }

  lemma {:induction false} SpelledDigit(text: string, n: nat, base: nat, k: nat)
    requires 2 <= base <= 16 && Spells(text, n, base) && k < |Digits(n, base)| <= |text|
    ensures var c, digits := text[|text| - |Digits(n, base)| + k], Digits(n, base);
            DigitValue(c) == DigitValue(digits[k]) < base && !IsSpace(c) && c != '#'
  {
    var digits := Digits(n, base);
    DigitsReadBack(n, base);
    UpperCaseValue(digits[k]);
    hide Digits, ValueOf, DigitValue, UpperCase, IsSpace;
  }

  lemma {:induction false} SpelledValue(text: string, n: nat, base: nat)
    requires 2 <= base <= 16 && Spells(text, n, base)
    ensures ValueOf(text, base) == n && AllDigits(text, base) && text != ""
  {
    hide Digits, ValueOf, Spells;
    var digits := Digits(n, base);
    SpelledLength(text, n, base);
    var z := |text| - |digits|;
    DigitsReadBack(n, base);
    forall k | 0 <= k < z
      ensures text[k] == '0'
    {
      SpelledZero(text, n, base, k);
    }
    forall k | 0 <= k < |digits|
      ensures var c := text[z + k]; DigitValue(c) == DigitValue(digits[k]) < base && !IsSpace(c) && c != '#'
    {
      SpelledDigit(text, n, base, k);
    }
    SplitValue(text, z, digits, base);
  }

  lemma {:induction false} SplitValue(text: string, z: nat, digits: string, base: nat)
    requires z + |digits| == |text| && base > 0
    requires forall k :: 0 <= k < z ==> text[k] == '0'
    requires forall k :: 0 <= k < |digits| ==> var c := text[z + k]; DigitValue(c) == DigitValue(digits[k]) < base && !IsSpace(c) && c != '#'
    ensures ValueOf(text, base) == ValueOf(digits, base) && AllDigits(text, base)
  {
    assert text == text[..z] + text[z..];
    LeadingZeros(text[..z], text[z..], base);
    SameValue(text[z..], digits, base);
    hide ValueOf;
    assert forall k :: z <= k < |text| ==> text[k] == text[z + (k - z)];
  }

  lemma {:induction false} SpelledNumber(text: string, n: nat, base: nat)
    requires 2 <= base <= 16 && Spells(text, n, base)
    ensures FromChars(text, base) == if n < U32_LIMIT then Number(n, |text|) else OutOfRange
  {
    SpelledValue(text, n, base);
    FullRun(text, base);
    assert text[..|text|] == text;
    hide Digits, ValueOf, DigitRun, Spells;
  }

  // The printed digits are one spelling.
  lemma {:induction false} DigitsSpell(n: nat, base: nat)
    requires 2 <= base <= 16
    ensures Spells(Digits(n, base), n, base)
  {
    hide Digits;
  }

  // ---------- The words of a line ----------

  ghost predicate KindWord(word: string, isWrite: bool) {
    word in if isWrite then ["w", "W"] else ["r", "R"]
  }

  ghost predicate HexWord(word: string, n: nat) {
    |word| > 2 && word[0] == '0' && (word[1] == 'x' || word[1] == 'X') && Spells(word[2..], n, 16)
  }

  ghost predicate AddressWord(word: string, n: nat) {
    HexWord(word, n) || Spells(word, n, 10)
  }

  ghost predicate IdWord(word: string, id: nat) {
    |word| >= 2 && (word[0] == 'P' || word[0] == 'p') && Spells(word[1..], id, 10)
  }

  // A first word that names no processor.
  ghost predicate ForeignWord(word: string) {
    IsWord(word) && !(|word| >= 2 && (word[0] == 'P' || word[0] == 'p') && DigitValue(word[1]) < 10)
  }

  lemma {:induction false} HexWordReads(word: string, n: nat)
    requires HexWord(word, n)
    ensures AddressOf(word) == Some(if n < U32_LIMIT then n else 0) && IsWord(word)
  {
    SpelledValue(word[2..], n, 16);
    SpelledNumber(word[2..], n, 16);
    LeadingZero(word);
    forall k | 0 <= k < |word|
      ensures !IsSpace(word[k]) && word[k] != '#'
    {
      if k >= 2 { assert word[k] == word[2..][k - 2]; }
    }
    hide FromChars, Digits, Spells, NonSpace, ValueOf;
  }

  // A decimal address too wide for 32 bits is refused.
  lemma {:induction false} DecimalWordReads(word: string, n: nat)
    requires Spells(word, n, 10)
    ensures AddressOf(word) == (if n < U32_LIMIT then Some(n) else None) && IsWord(word)
  {
    SpelledValue(word, n, 10);
    SpelledNumber(word, n, 10);
    assert |word| > 1 ==> DigitValue(word[1]) < 10;
    hide FromChars, Digits, Spells, NonSpace, ValueOf;
  }

  lemma {:induction false} IdWordReads(word: string, id: nat)
    requires IdWord(word, id)
    ensures CoreIdOf(word) == (if id < U32_LIMIT then Some(id) else None) && IsWord(word)
  {
    SpelledValue(word[1..], id, 10);
    SpelledNumber(word[1..], id, 10);
    forall k | 0 <= k < |word|
      ensures !IsSpace(word[k]) && word[k] != '#'
    {
      if k >= 1 { assert word[k] == word[1..][k - 1]; }
    }
    hide FromChars, Digits, Spells, ValueOf;
  }

  lemma {:induction false} ForeignWordReads(word: string)
    requires ForeignWord(word)
    ensures CoreIdOf(word) == None
  {
    if |word| >= 2 {
      assert DigitValue(word[1..][0]) >= 10 ==> DigitRun(word[1..], 10) == 0;
    }
  }

  // ---------- The line ----------

  // White space, an optional first word, the kind and the address, with white space between them.
  datatype Writing = Writing(lead: string, first: string, firstGap: string, kind: string, gap: string, address: string)

  function LineText(w: Writing): string {
    w.lead + (if w.first == "" then w.kind + (w.gap + (w.address + ""))
              else w.first + (w.firstGap + (w.kind + (w.gap + (w.address + "")))))
  }

  ghost predicate WellSpaced(w: Writing) {
    AllSpace(w.lead) && IsGap(w.gap) && (w.first == "" || (IsWord(w.first) && IsGap(w.firstGap)))
  }

  // The line spells the access.
  ghost predicate Writes(w: Writing, a: Access) {
    && WellSpaced(w) && KindWord(w.kind, a.isWrite) && AddressWord(w.address, a.address)
    && (if a.coreId.Some? then IdWord(w.first, a.coreId.value) else w.first == "" || ForeignWord(w.first))
  }

  lemma {:induction false} LastOf(w: Writing)
    requires IsWord(w.address) && WellSpaced(w) && IsWord(w.kind)
    ensures var s := LineText(w); s != "" && !IsSpace(s[|s| - 1]) && '#' !in s
  {
    var s := LineText(w);
    assert s[|s| - 1] == w.address[|w.address| - 1];
    SpacesHaveNoHash(w.lead);
    SpacesHaveNoHash(w.gap);
    if w.first != "" {
      SpacesHaveNoHash(w.firstGap);
    }
  }

  lemma {:induction false} TextStarts(w: Writing, a: Access)
    requires Writes(w, a)
    ensures LineText(w) != "" && LineText(w)[0] != '#'
  {
    AddressWordReads(w.address, a.address);
    FirstWordReads(w, a);
    LastOf(w);
    hide AddressOf, CoreIdOf, AddressWord, IdWord, ForeignWord, LineText;
  }

  lemma {:induction false} SpacesHaveNoHash(s: string)
    requires AllSpace(s)
    ensures '#' !in s
  {
  }

  // What such a line means, whatever its words are.
  lemma {:induction false} WordsMean(w: Writing, comment: string)
    requires WellSpaced(w) && IsWord(w.kind) && IsWord(w.address) && Trailing(comment)
    ensures LineMeaning(LineText(w) + comment)
         == AccessOf(w.kind, w.address, if w.first == "" then None else CoreIdOf(w.first))
  {
    LastOf(w);
    TrailingCut(LineText(w), comment);
    var line := LineText(w) + comment;
    hide AccessOf, CoreIdOf, LineMeaning, TrimRight, BeforeHash, IsWord, IsGap, AllSpace;
    if w.first == "" {
      MeaningOfTwo(line, w.lead, w.kind, w.gap, w.address);
    } else {
      MeaningOfThree(line, w.lead, w.first, w.firstGap, w.kind, w.gap, w.address);
    }
  }

  lemma {:induction false} KindWordReads(word: string, isWrite: bool, address: string, coreId: Option<nat>)
    requires KindWord(word, isWrite)
    ensures IsWord(word)
    ensures AccessOf(word, address, coreId)
         == match AddressOf(address) case Some(a) => Ok(Access(isWrite, a, coreId)) case None => Err(InvalidAddressFormat)
  {
    hide AddressOf;
  }

  // A hexadecimal address too wide for 32 bits reads as 0; a decimal one is refused.
  ghost predicate Refused(word: string, n: nat) { n >= U32_LIMIT && !HexWord(word, n) }

  lemma {:induction false} AddressWordReads(word: string, n: nat)
    requires AddressWord(word, n)
    ensures AddressOf(word) == (if Refused(word, n) then None else Some(if n < U32_LIMIT then n else 0)) && IsWord(word)
  {
    if HexWord(word, n) {
      HexWordReads(word, n);
    } else {
      DecimalWordReads(word, n);
    }
    hide AddressOf, Spells;
  }

  lemma {:induction false} FirstWordReads(w: Writing, a: Access)
    requires Writes(w, a)
    ensures (if w.first == "" then None else CoreIdOf(w.first)) == Narrowed(a).coreId
  {
    if a.coreId.Some? {
      IdWordReads(w.first, a.coreId.value);
    } else if w.first != "" {
      ForeignWordReads(w.first);
    }
    hide CoreIdOf, Spells;
  }

  // Every line that spells an access, with anything harmless behind it, reads as that access, its
  // fields exactly when they fit 32 bits.
  lemma {:induction false} WrittenReads(w: Writing, a: Access, comment: string)
    requires Writes(w, a) && Trailing(comment)
    ensures LineMeaning(LineText(w) + comment)
         == if Refused(w.address, a.address) then Err(InvalidAddressFormat) else Ok(Narrowed(a))
  {
    FirstWordReads(w, a);
    AddressWordReads(w.address, a.address);
    KindWordReads(w.kind, a.isWrite, w.address, Narrowed(a).coreId);
    hide AccessOf, CoreIdOf, LineMeaning, AddressOf, LineText, AddressWord, KindWord, Refused, IdWord, ForeignWord;
    WordsMean(w, comment);
  }

  // So it gives the access back exactly when the access fits.
  lemma {:induction false} WrittenRoundTrip(w: Writing, a: Access, comment: string)
    requires Writes(w, a) && Trailing(comment)
    ensures LineMeaning(LineText(w) + comment) == Ok(a) <==> Fits(a)
  {
    WrittenReads(w, a, comment);
    hide Writes, LineMeaning, LineText;
  }

  // The printed line is such a line.
  function PrintedWriting(a: Access): Writing {
    Writing("", if a.coreId.Some? then "P" + Digits(a.coreId.value, 10) else "", " ",
            if a.isWrite then "w" else "r", " ", "0x" + Digits(a.address, 16))
  }

  lemma {:induction false} PrintedIsWritten(a: Access)
    ensures Writes(PrintedWriting(a), a) && LineText(PrintedWriting(a)) == Printed(a)
  {
    hide Digits, Spells, HexWord, IdWord, IsWord;
    PrintedDigits(a.address);
    if a.coreId.Some? { PrintedId(a.coreId.value); }
    PrintedText(a);
  }

  lemma {:induction false} PrintedText(a: Access)
    ensures LineText(PrintedWriting(a)) == Printed(a)
  {
    hide Digits;
  }

  lemma {:induction false} PrintedId(id: nat)
    ensures IdWord("P" + Digits(id, 10), id) && IsWord("P" + Digits(id, 10))
  {
    DigitsSpell(id, 10);
    DigitsReadBack(id, 10);
    assert ("P" + Digits(id, 10))[1..] == Digits(id, 10);
    hide Digits, Spells;
  }

  lemma {:induction false} PrintedDigits(n: nat)
    ensures HexWord("0x" + Digits(n, 16), n)
  {
    PrefixedDigits(n);
    DigitsSpell(n, 16);
    hide Digits, Spells;
  }

  // Reading a printed line with white space or a comment behind it: a wider address turns into 0
  // and a wider processor id into none.
  lemma {:induction false} LineRoundTrip(a: Access, comment: string)
    requires Trailing(comment)
    ensures LineMeaning(Printed(a) + comment) == Ok(Narrowed(a))
  {
    PrintedIsWritten(a);
    PrintedDigits(a.address);
    WrittenReads(PrintedWriting(a), a, comment);
    hide LineMeaning, Printed, LineText, Writes, Digits;
  }

  lemma {:induction false} FittingLineRoundTrip(a: Access, comment: string)
    requires Trailing(comment)
    ensures LineMeaning(Printed(a) + comment) == Ok(a) <==> Fits(a)
  {
    LineRoundTrip(a, comment);
    hide LineMeaning, Printed;
  }

  // ---------- Lines that are refused ----------

  // Any other kind, as the documented atomic accesses and barriers, is refused.
  lemma {:induction false} OtherKindRefused(w: Writing, comment: string)
    requires WellSpaced(w) && IsWord(w.kind) && IsWord(w.address) && Trailing(comment)
    requires w.kind !in ["r", "R", "w", "W"]
    ensures LineMeaning(LineText(w) + comment) == Err(InvalidAccessType)
  {
    WordsMean(w, comment);
    hide LineMeaning, LineText, CoreIdOf;
  }

  // So is an address that does not begin with a digit.
  lemma {:induction false} BadAddressRefused(w: Writing, isWrite: bool, comment: string)
    requires WellSpaced(w) && KindWord(w.kind, isWrite) && IsWord(w.address) && Trailing(comment)
    requires DigitValue(w.address[0]) >= 10
    ensures LineMeaning(LineText(w) + comment) == Err(InvalidAddressFormat)
  {
    KindWordReads(w.kind, isWrite, w.address, if w.first == "" then None else CoreIdOf(w.first));
    WordsMean(w, comment);
    assert AddressOf(w.address) == None by { assert NonSpace(w.address) == w.address; }
    hide LineMeaning, LineText, CoreIdOf, AccessOf, AddressOf;
  }

  // And a line of a single word.
  lemma {:induction false} LoneWordRefused(lead: string, word: string, comment: string)
    requires AllSpace(lead) && IsWord(word) && Trailing(comment)
    ensures LineMeaning(lead + (word + "") + comment) == Err(UnknownError)
  {
    var body := lead + (word + "");
    assert body[|body| - 1] == word[|word| - 1];
    SpacesHaveNoHash(lead);
    TrailingCut(body, comment);
    MeaningOfOne(body + comment, lead, word);
    hide LineMeaning, TrimRight, BeforeHash;
  }

  // Digits with something else behind them still read, in decimal; in hexadecimal the whole word
  // falls back to its leading 0.
  lemma {:induction false} TrailingJunk(word: string, n: nat, junk: string)
    requires Spells(word, n, 10) && n < U32_LIMIT && NoSpace(junk) && junk != "" && DigitValue(junk[0]) >= 16
    requires !(word == "0" && (junk[0] == 'x' || junk[0] == 'X'))
    ensures AddressOf(word + junk) == Some(n)
  {
    SpelledValue(word, n, 10);
    RunEnds(word, junk, 10);
    var s := word + junk;
    assert s[..|word|] == word && NoSpace(s);
    assert s[1] == if |word| > 1 then word[1] else junk[0];
    assert s[0] == word[0];
    NoHexPrefix(s);
    hide Digits, Spells, ValueOf, NonSpace, DigitRun, HexAddress, AllDigits;
  }

  lemma {:induction false} NoHexPrefix(s: string)
    requires |s| < 2 || s[0] != '0' || (s[1] != 'x' && s[1] != 'X')
    ensures HexAddress(s) == None
  {
  }

  // So does a processor id.
  lemma {:induction false} TrailingIdJunk(letter: char, digits: string, id: nat, junk: string)
    requires letter in "Pp" && Spells(digits, id, 10) && (junk == "" || DigitValue(junk[0]) >= 10)
    ensures CoreIdOf([letter] + (digits + junk)) == if id < U32_LIMIT then Some(id) else None
  {
    SpelledValue(digits, id, 10);
    RunEnds(digits, junk, 10);
    assert ([letter] + (digits + junk))[1..] == digits + junk;
    assert (digits + junk)[..|digits|] == digits;
    hide Digits, Spells, ValueOf, DigitRun;
  }

  lemma {:induction false} TrailingHexJunk(word: string, n: nat, junk: string)
    requires HexWord(word, n) && NoSpace(junk) && junk != "" && DigitValue(junk[0]) >= 16
    ensures AddressOf(word + junk) == Some(0)
  {
    HexWordReads(word, n);
    var s := word + junk;
    assert NoSpace(s) && s[0] == word[0] && s[1] == word[1];
    JunkEndsHex(word, n, junk);
    LeadingZero(s);
    hide FromChars, NonSpace, HexAddress, HexWord;
  }

  lemma {:induction false} JunkEndsHex(word: string, n: nat, junk: string)
    requires HexWord(word, n) && junk != "" && DigitValue(junk[0]) >= 16
    ensures HexAddress(word + junk) == None
  {
    SpelledValue(word[2..], n, 16);
    RunEnds(word[2..], junk, 16);
    assert (word + junk)[2..] == word[2..] + junk;
    hide Spells, ValueOf, DigitRun, AllDigits;
  }
}
