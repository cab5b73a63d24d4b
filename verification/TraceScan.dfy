// The second reader of trace files, which the parallel replay uses: a character and a hexadecimal
// number from each line. It agrees with the parser on hexadecimal addresses without processor ids;
// decimal ones it reads as hexadecimal, and with an id it takes that for the address.
module TraceScan {
  import opened MachineIntegers
  import opened TraceFormat
  import opened TraceForms
  import opened TraceFiles

  // ---------- One line ----------

  // The text of a hexadecimal number at the start of `s`, without its sign and prefix.
  function Unprefixed(s: string): string {
    if |s| >= 2 && s[0] == '0' && (s[1] == 'x' || s[1] == 'X') then s[2..] else s
  }

  function Unsigned(s: string): string {
    if s != "" && (s[0] == '+' || s[0] == '-') then s[1..] else s
  }

  // The conversion of the longest run of hexadecimal digits, kept in 32 bits.
  function ScanHex(s: string): (r: Option<U32>) {
    var digits := Unprefixed(Unsigned(s));
    var n := DigitRun(digits, 16);
    if n == 0 then None
    else
      var v := ValueOf(digits[..n], 16) % U32_LIMIT;
      Some(if s[0] == '-' then (U32_LIMIT - v) % U32_LIMIT else v)
  }

  // The address of a line: any one character, white space, a hexadecimal number.
  function ScanLine(line: string): Option<U32> {
    if line == "" then None else ScanHex(SkipSpace(line[1..]))
  }

  // The addresses of a file; lines that are empty, start a comment or do not scan are passed over.
  function Scanned(text: string): seq<U32>
    decreases |text|
  {
    if text == "" then []
    else
      var line := FirstLine(text);
      (if !Skipped(line) && ScanLine(line).Some? then [ScanLine(line).value] else []) + Scanned(LaterLines(text))
  }

  // ---------- Written lines ----------

  // The digits that the scan takes for the address: those of the processor id if there is one.
  function ScannedDigits(w: Writing): string {
    if w.first != "" then w.first[1..] else Unprefixed(w.address)
  }

  // The lines the scan is about: no first word but a processor id.
  ghost predicate IdsOnly(w: Writing, a: Access) { Writes(w, a) && (a.coreId.None? ==> w.first == "") }

  // What the scan makes of a written line: nothing if white space comes first.
  function ScannedOf(w: Writing): Option<U32> {
    if w.lead != "" then None else Some(ValueOf(ScannedDigits(w), 16) % U32_LIMIT)
  }

  lemma {:induction false} WiderBase(s: string, narrow: nat, wide: nat)
    requires AllDigits(s, narrow) && narrow <= wide
    ensures AllDigits(s, wide)
  {
  }

  // A number with or without a prefix, and something else behind it.
  lemma {:induction false} ScanNumber(text: string, rest: string)
    requires Unprefixed(text) != "" && AllDigits(Unprefixed(text), 16) && text[0] !in "+-"
    requires rest == "" || IsSpace(rest[0]) || rest[0] == '#'
    ensures ScanHex(text + rest) == Some(ValueOf(Unprefixed(text), 16) % U32_LIMIT)
  {
    var s, digits := text + rest, Unprefixed(text);
    assert s[0] == text[0];
    RunEnds(digits, rest, 16);
    PrefixOfBoth(text, rest);
    assert (digits + rest)[..|digits|] == digits;
    hide DigitRun, ValueOf, AllDigits, Unprefixed;
  }

  // A sign is taken too, and a negative number wraps around.
  lemma {:induction false} SignedNumberScans(sign: char, text: string, n: nat, rest: string)
    requires sign in "+-" && AddressWord(text, n) && (rest == "" || IsSpace(rest[0]))
    ensures var v := ValueOf(Unprefixed(text), 16) % U32_LIMIT;
            ScanHex([sign] + (text + rest)) == Some(if sign == '-' then (U32_LIMIT - v) % U32_LIMIT else v)
  {
    AddressDigits(text, n);
    ScanNumber(text, rest);
    assert ([sign] + (text + rest))[1..] == text + rest;
    hide DigitRun, ValueOf, AllDigits, AddressWord;
  }

  lemma {:induction false} PrefixOfBoth(text: string, rest: string)
    requires text != "" && (rest == "" || rest[0] !in "xX")
    ensures Unprefixed(text + rest) == Unprefixed(text) + rest
  {
    var s := text + rest;
    assert s[0] == text[0] && (|s| >= 2 ==> s[1] == if |text| >= 2 then text[1] else rest[0]);
    if |text| >= 2 { assert s[2..] == text[2..] + rest; }
  }

  lemma {:induction false} TrailingStart(comment: string)
    requires Trailing(comment)
    ensures comment == "" || comment[0] == '#' || IsSpace(comment[0])
  {
    if comment != "" && comment[0] != '#' {
      assert BeforeHash(comment)[0] == comment[0];
    }
  }

  lemma {:induction false} AddressDigits(word: string, n: nat)
    requires AddressWord(word, n)
    ensures Unprefixed(word) != "" && AllDigits(Unprefixed(word), 16) && word != "" && word[0] !in "+-"
  {
    if HexWord(word, n) {
      SpelledValue(word[2..], n, 16);
    } else {
      SpelledValue(word, n, 10);
      WiderBase(word, 10, 16);
    }
    hide Spells, ValueOf;
  }

  lemma {:induction false} IdDigits(word: string, id: nat)
    requires IdWord(word, id)
    ensures var digits := word[1..]; digits != "" && Unprefixed(digits) == digits && AllDigits(digits, 16)
    ensures word[1] !in "+-" && !IsSpace(word[1])
  {
    SpelledValue(word[1..], id, 10);
    WiderBase(word[1..], 10, 16);
    assert word[1..][0] == word[1];
    hide Spells, ValueOf;
  }

  // One character, white space and a number.
  lemma {:induction false} ScanSplits(first: char, gap: string, text: string, rest: string, line: string)
    requires line == [first] + (gap + (text + rest)) && AllSpace(gap) && text != "" && !IsSpace(text[0])
    ensures ScanLine(line) == ScanHex(text + rest)
  {
    assert line[1..] == gap + (text + rest);
    SkipLead(gap, text + rest);
    hide ScanHex, SkipSpace;
  }

  lemma {:induction false} WithoutId(w: Writing, a: Access, comment: string)
    requires IdsOnly(w, a) && a.coreId.None? && w.lead == "" && Trailing(comment)
    ensures ScanLine(LineText(w) + comment) == ScannedOf(w)
  {
    hide ScanLine, ScanHex, AllDigits, Unprefixed, AddressWord, Trailing, AllSpace, AddressOf, ValueOf, DigitValue;
    AddressDigits(w.address, a.address);
    AddressWordReads(w.address, a.address);
    AfterTrailing(w.address, comment);
    KindSplits(w, comment);
    ScanSplits(w.kind[0], w.gap, w.address, comment, LineText(w) + comment);
  }

  lemma {:induction false} AfterTrailing(text: string, comment: string)
    requires Unprefixed(text) != "" && AllDigits(Unprefixed(text), 16) && text[0] !in "+-" && Trailing(comment)
    ensures ScanHex(text + comment) == Some(ValueOf(Unprefixed(text), 16) % U32_LIMIT)
  {
    TrailingStart(comment);
    ScanNumber(text, comment);
    hide ScanHex, ValueOf, Unprefixed, AllDigits, Trailing;
  }

  lemma {:induction false} KindSplits(w: Writing, comment: string)
    requires w.lead == "" && w.first == "" && |w.kind| == 1
    ensures LineText(w) + comment == [w.kind[0]] + (w.gap + (w.address + comment))
  {
  }

  lemma {:induction false} WithId(w: Writing, a: Access, comment: string)
    requires IdsOnly(w, a) && a.coreId.Some? && w.lead == ""
    ensures ScanLine(LineText(w) + comment) == ScannedOf(w)
  {
    hide ScanLine, ScanHex, AllDigits, Unprefixed, AddressWord, IdWord, AllSpace, ValueOf;
    assert |w.first| >= 2 by { LongEnough(w.first, a.coreId.value); }
    var digits := w.first[1..];
    IdDigits(w.first, a.coreId.value);
    var rest := w.firstGap + (w.kind + (w.gap + w.address)) + comment;
    GapStarts(w.firstGap);
    ScanNumber(digits, rest);
    assert LineText(w) + comment == [w.first[0]] + ("" + (digits + rest));
    NothingSkipped();
    ScanSplits(w.first[0], "", digits, rest, LineText(w) + comment);
  }

  lemma {:induction false} LongEnough(word: string, id: nat)
    requires IdWord(word, id)
    ensures |word| >= 2
  {
  }

  lemma {:induction false} NothingSkipped()
    ensures AllSpace("")
  {
  }

  lemma {:induction false} GapStarts(gap: string)
    requires IsGap(gap)
    ensures gap != "" && IsSpace(gap[0]) && DigitValue(gap[0]) == 36
  {
  }

  // White space in front: the letter that follows is no number.
  lemma {:induction false} LedLineDoesNotScan(w: Writing, a: Access, comment: string)
    requires IdsOnly(w, a) && w.lead != ""
    ensures ScanLine(LineText(w) + comment) == None
  {
    var word, line := (if w.first == "" then w.kind else w.first), LineText(w) + comment;
    assert word != "" && word[0] in "rRwWpP";
    var rest := line[|w.lead| + |word|..];
    assert line == [w.lead[0]] + (w.lead[1..] + (word + rest));
    ScanSplits(w.lead[0], w.lead[1..], word, rest, line);
    LetterDoesNotScan(word + rest);
    hide ScanLine, ScanHex, Spells;
  }

  lemma {:induction false} LetterDoesNotScan(s: string)
    requires s != "" && s[0] in "rRwWpP"
    ensures ScanHex(s) == None
  {
  }

  lemma {:induction false} WrittenLineScans(w: Writing, a: Access, comment: string)
    requires IdsOnly(w, a) && Trailing(comment)
    ensures ScanLine(LineText(w) + comment) == ScannedOf(w)
  {
    if w.lead != "" {
      LedLineDoesNotScan(w, a, comment);
    } else if a.coreId.None? {
      WithoutId(w, a, comment);
    } else {
      WithId(w, a, comment);
    }
    hide ScanLine, LineText, Writes;
  }

  // A printed access: without a processor id its address, with one the decimal digits of the id read
  // as a hexadecimal number.
  lemma {:induction false} PrintedLineScans(a: Access, comment: string)
    requires Trailing(comment)
    ensures ScanLine(Printed(a) + comment)
         == Some(if a.coreId.None? then a.address % U32_LIMIT else ValueOf(Digits(a.coreId.value, 10), 16) % U32_LIMIT)
  {
    PrintedIsWritten(a);
    WrittenLineScans(PrintedWriting(a), a, comment);
    PrefixedDigits(a.address);
    DigitsReadBack(a.address, 16);
    if a.coreId.Some? {
      var id := Digits(a.coreId.value, 10);
      assert ("P" + id)[1..] == id;
    }
    hide ScanLine, LineText, Writes, Printed, Digits, ValueOf;
  }

  lemma {:induction false} NoiseDoesNotScan(line: string)
    requires Trailing(line)
    ensures Skipped(line) || ScanLine(line).None?
  {
    if !Skipped(line) {
      SkipsToHash(line[1..]);
      assert Trailing(line[1..]) by {
        assert BeforeHash(line) == [line[0]] + BeforeHash(line[1..]);
        forall k | 0 <= k < |BeforeHash(line[1..])|
          ensures IsSpace(BeforeHash(line[1..])[k])
        {
          assert BeforeHash(line)[k + 1] == BeforeHash(line[1..])[k];
        }
      }
    }
  }

  lemma {:induction false} SkipsToHash(s: string)
    ensures Trailing(s) ==> SkipSpace(s) == "" || SkipSpace(s)[0] == '#'
  {
    if s != "" && s[0] != '#' {
      SkipsToHash(s[1..]);
      if Trailing(s) {
        assert BeforeHash(s) == [s[0]] + BeforeHash(s[1..]);
        assert IsSpace(BeforeHash(s)[0]);
        forall k | 0 <= k < |BeforeHash(s[1..])|
          ensures IsSpace(BeforeHash(s[1..])[k])
        {
          assert BeforeHash(s)[k + 1] == BeforeHash(s[1..])[k];
        }
      }
    }
  }

  // ---------- Whole files ----------

  ghost predicate AllIdsOnly(items: seq<Item>) {
    forall k :: 0 <= k < |items| ==> items[k].Entry? ==> IdsOnly(items[k].writing, items[k].access)
  }

  // The addresses scanned of the entries without white space in front.
  function ScannedBack(items: seq<Item>): (r: seq<U32>)
    ensures |r| <= |Listed(items)|
  {
    if items == [] then [] else
    var scanned := if items[0].Entry? then ScannedOf(items[0].writing) else None;
    (if scanned.Some? then [scanned.value] else []) + ScannedBack(items[1..])
  }

  lemma {:induction false} ItemScans(item: Item)
    requires Harmless(item) && (item.Entry? ==> IdsOnly(item.writing, item.access))
    ensures '\n' !in LineOf(item)
    ensures var line := LineOf(item);
      if item.Entry? then !Skipped(line) && ScanLine(line) == ScannedOf(item.writing)
      else Skipped(line) || ScanLine(line).None?
  {
    ItemLine(item, Simple);
    match item
    case Noise(line) => NoiseDoesNotScan(line);
    case Entry(access, writing, comment) => WrittenLineScans(writing, access, comment);
    hide ScanLine, LineText, ScannedOf, Writes, Meaning;
  }

  // Scanning a file of written accesses, with white space and comments anywhere.
  lemma {:induction false} FileScans(items: seq<Item>)
    requires AllHarmless(items) && AllIdsOnly(items)
    ensures Scanned(Text(items)) == ScannedBack(items)
  {
    if items != [] {
      ItemScans(items[0]);
      FileScans(items[1..]);
      ScannedCons(items);
    }
    hide ScanLine, LineOf, ScannedOf, Skipped, Scanned, Text, Harmless, IdsOnly;
  }

  lemma {:induction false} ScannedCons(items: seq<Item>)
    requires items != [] && '\n' !in LineOf(items[0])
    ensures var line := LineOf(items[0]);
      Scanned(Text(items))
        == (if !Skipped(line) && ScanLine(line).Some? then [ScanLine(line).value] else []) + Scanned(Text(items[1..]))
  {
    LineEnds(LineOf(items[0]), Text(items[1..]));
    assert Text(items) != "";
    hide ScanLine, LineOf, Skipped;
  }

  function AddressesOf(accesses: seq<Access>): (r: seq<nat>)
    ensures |r| == |accesses| && forall k :: 0 <= k < |r| ==> r[k] == accesses[k].address
  {
    seq(|accesses|, k requires 0 <= k < |accesses| => accesses[k].address)
  }

  // The scan takes an entry for what it is if no white space is in front and the digits it scans
  // spell the address in hexadecimal.
  predicate ScansRight(item: Item) {
    item.Entry? ==> item.writing.lead == "" && ValueOf(ScannedDigits(item.writing), 16) % U32_LIMIT == item.access.address
  }

  // So the two readers of such a file agree on its addresses exactly when that holds of every entry.
  lemma {:induction false} ReadersAgreeIff(items: seq<Item>)
    requires AllHarmless(items) && AllIdsOnly(items) && forall k :: 0 <= k < |Listed(items)| ==> Fits(Listed(items)[k])
    ensures Scanned(Text(items)) == AddressesOf(Accesses(Text(items), Detected(Text(items), 0)))
       <==> forall k :: 0 <= k < |items| ==> ScansRight(items[k])
  {
    TraceRoundTrip(items);
    FileScans(items);
    ScansAgreeIff(items);
    assert ScansAgree(items) <==> ScannedBack(items) == AddressesOf(Listed(items));
    hide *;
  }

  ghost predicate ScansAgree(items: seq<Item>) { ScannedBack(items) == AddressesOf(Listed(items)) }

  lemma {:induction false} ScansAgreeIff(items: seq<Item>)
    ensures ScansAgree(items) <==> forall k :: 0 <= k < |items| ==> ScansRight(items[k])
  {
    if items != [] {
      ScansAgreeIff(items[1..]);
      ScansAgreeCons(items);
      RightHeadAndTail(items);
    }
    hide ScansRight;
  }

  lemma {:induction false} ScansAgreeCons(items: seq<Item>)
    requires items != []
    ensures ScansAgree(items) <==> ScansRight(items[0]) && ScansAgree(items[1..])
  {
    hide ScannedDigits;
    var rest, scans := Listed(items[1..]), ScannedBack(items[1..]);
    if items[0].Entry? {
      var a, scanned := items[0].access, ScannedOf(items[0].writing);
      AddressesCons(a, rest);
      assert Listed(items) == [a] + rest;
      if scanned.None? {
        assert ScannedBack(items) == scans;
      } else {
        assert ScannedBack(items) == [scanned.value] + scans;
        ConsAddressIff(scanned.value, scans, a.address, AddressesOf(rest));
      }
    } else {
      assert Listed(items) == rest && ScannedBack(items) == scans;
    }
  }

  lemma {:induction false} AddressesCons(a: Access, rest: seq<Access>)
    ensures AddressesOf([a] + rest) == [a.address] + AddressesOf(rest)
  {
  }

  lemma {:induction false} ConsAddressIff(a: U32, s: seq<U32>, b: nat, t: seq<nat>)
    ensures [a] + s == [b] + t <==> a == b && s == t
  {
    assert ([a] + s)[0] == a && ([b] + t)[0] == b && ([a] + s)[1..] == s && ([b] + t)[1..] == t;
  }

  lemma {:induction false} RightHeadAndTail(items: seq<Item>)
    requires items != []
    ensures (forall k :: 0 <= k < |items| ==> ScansRight(items[k]))
       <==> ScansRight(items[0]) && forall k :: 0 <= k < |items[1..]| ==> ScansRight(items[1..][k])
  {
    assert forall k :: 1 <= k < |items| ==> items[k] == items[1..][k - 1];
    assert forall k :: 0 <= k < |items[1..]| ==> items[1..][k] == items[k + 1];
    hide ScansRight;
  }

  // With hexadecimal addresses, no processor ids and no white space in front they always agree.
  lemma {:induction false} PlainHexScansRight(item: Item)
    requires item.Entry? && IdsOnly(item.writing, item.access) && Fits(item.access)
    requires item.writing.lead == "" && item.access.coreId.None? && HexWord(item.writing.address, item.access.address)
    ensures ScansRight(item)
  {
    SpelledValue(item.writing.address[2..], item.access.address, 16);
    hide Spells, ValueOf;
  }
}
