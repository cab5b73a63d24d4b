// Trace lines in the structured format: exactly which lines are read, and as what.
module TraceJson {
  import opened MachineIntegers
  import opened TraceFormat
  import opened TraceForms

  // ---------- Reading ----------

  function After(s: Option<string>, literal: string): Option<string> {
    if s.Some? && literal <= s.value then Some(s.value[|literal|..]) else None
  }

  function Then(s: Option<string>, literal: string): Option<string> {
    After(if s.Some? then Some(SkipSpace(s.value)) else None, literal)
  }

  // What follows the opening quote of the kind, and that of the address.
  function KindOn(line: string): Option<string> {
    Then(Then(Then(After(Some(line), "{"), "\"type\""), ":"), "\"")
  }

  function AddressOn(afterKind: string): Option<string> {
    Then(Then(Then(Then(After(Some(afterKind), "\""), ","), "\"address\""), ":"), "\"")
  }

  function JsonMeaning(line: string): Result<Access> {
    var kind := KindOn(line);
    if kind.None? || kind.value == "" || kind.value[0] !in "rRwW" then Err(InvalidJsonFormat)
    else
      var address := AddressOn(kind.value[1..]);
      if After(address, "0x").None? || DigitRun(After(address, "0x").value, 16) == 0 then Err(InvalidJsonFormat)
      else
        var n := 2 + DigitRun(After(address, "0x").value, 16);
        if Then(After(Some(address.value[n..]), "\""), "}") != Some("") then Err(InvalidJsonFormat)
        else match AddressOf(address.value[..n])
          case None => Err(InvalidAddressFormat)
          case Some(a) => Ok(Access(kind.value[0] in "wW", a, None))
  }

  // ---------- Writing ----------

  // The white space at the eight places that allow it, the letter of the kind and the digits.
  datatype JsonWriting = JsonWriting(gap0: string, gap1: string, gap2: string, gap3: string, gap4: string,
                                     gap5: string, gap6: string, gap7: string, kind: string, digits: string)

  ghost predicate WellGapped(w: JsonWriting) {
    && AllSpace(w.gap0) && AllSpace(w.gap1) && AllSpace(w.gap2) && AllSpace(w.gap3)
    && AllSpace(w.gap4) && AllSpace(w.gap5) && AllSpace(w.gap6) && AllSpace(w.gap7)
  }

  function FromAddress(w: JsonWriting): string {
    "0x" + (w.digits + ("\"" + (w.gap7 + ("}" + ""))))
  }

  function FromComma(w: JsonWriting): string {
    "\"" + (w.gap3 + ("," + (w.gap4 + ("\"address\"" + (w.gap5 + (":" + (w.gap6 + ("\"" + FromAddress(w)))))))))
  }

  function JsonText(w: JsonWriting): string {
    "{" + (w.gap0 + ("\"type\"" + (w.gap1 + (":" + (w.gap2 + ("\"" + (w.kind + FromComma(w))))))))
  }

  // ---------- What is written is read ----------

  lemma {:induction false} AfterIs(literal: string, rest: string)
    ensures After(Some(literal + rest), literal) == Some(rest)
  {
    assert (literal + rest)[..|literal|] == literal && (literal + rest)[|literal|..] == rest;
  }

  lemma {:induction false} ThenIs(gap: string, literal: string, rest: string)
    requires AllSpace(gap) && literal != "" && !IsSpace(literal[0])
    ensures Then(Some(gap + (literal + rest)), literal) == Some(rest)
  {
    SkipLead(gap, literal + rest);
    AfterIs(literal, rest);
  }

  lemma {:induction false} KindOnText(w: JsonWriting)
    requires WellGapped(w)
    ensures KindOn(JsonText(w)) == Some(w.kind + FromComma(w))
  {
    hide After, Then, FromComma, AllSpace;
    var s4 := w.kind + FromComma(w);
    var s3 := w.gap2 + ("\"" + s4);
    var s2 := w.gap1 + (":" + s3);
    var s1 := w.gap0 + ("\"type\"" + s2);
    AfterIs("{", s1);
    ThenIs(w.gap0, "\"type\"", s2);
    ThenIs(w.gap1, ":", s3);
    ThenIs(w.gap2, "\"", s4);
  }

  lemma {:induction false} AddressOnText(w: JsonWriting)
    requires WellGapped(w)
    ensures AddressOn(FromComma(w)) == Some(FromAddress(w))
  {
    hide After, Then, FromAddress, AllSpace;
    var s4 := FromAddress(w);
    var s3 := w.gap6 + ("\"" + s4);
    var s2 := w.gap5 + (":" + s3);
    var s1 := w.gap4 + ("\"address\"" + s2);
    var s0 := w.gap3 + ("," + s1);
    AfterIs("\"", s0);
    ThenIs(w.gap3, ",", s1);
    ThenIs(w.gap4, "\"address\"", s2);
    ThenIs(w.gap5, ":", s3);
    ThenIs(w.gap6, "\"", s4);
  }

  lemma {:induction false} AddressText(w: JsonWriting)
    requires WellGapped(w) && w.digits != "" && AllDigits(w.digits, 16)
    ensures var s := FromAddress(w); var n := 2 + |w.digits|;
      && After(Some(s), "0x").Some? && DigitRun(After(Some(s), "0x").value, 16) == |w.digits|
      && n <= |s| && s[..n] == "0x" + w.digits && Then(After(Some(s[n..]), "\""), "}") == Some("")
  {
    var s := FromAddress(w);
    var end := "\"" + (w.gap7 + ("}" + ""));
    RunEnds(w.digits, end, 16);
    AfterIs("0x", w.digits + end);
    AfterIs("\"", w.gap7 + ("}" + ""));
    ThenIs(w.gap7, "}", "");
    var n := 2 + |w.digits|;
    assert s[..n] == "0x" + w.digits && s[n..] == end;
    hide After, Then, DigitRun, AllDigits, AllSpace, FromAddress;
  }

  ghost predicate JsonWrites(w: JsonWriting, isWrite: bool, address: nat) {
    WellGapped(w) && KindWord(w.kind, isWrite) && Spells(w.digits, address, 16)
  }

  // Every line of the form reads as the access it spells; an address too wide for 32 bits turns
  // into 0.
  lemma {:induction false} JsonRoundTrip(w: JsonWriting, isWrite: bool, address: nat)
    requires JsonWrites(w, isWrite, address)
    ensures JsonMeaning(JsonText(w)) == Ok(Access(isWrite, if address < U32_LIMIT then address else 0, None))
  {
    hide KindOn, AddressOn, AddressOf, After, Then, DigitRun, JsonText, FromComma, FromAddress, Spells, AllSpace,
         AllDigits, JsonMeaning;
    SpelledValue(w.digits, address, 16);
    JsonHex(w.digits, address);
    KindOnText(w);
    AddressOnText(w);
    AddressText(w);
    JsonOfParts(JsonText(w), w.kind, isWrite, FromComma(w), FromAddress(w), w.digits);
  }

  lemma {:induction false} JsonOfParts(line: string, kind: string, isWrite: bool, comma: string, address: string, digits: string)
    requires KindWord(kind, isWrite) && KindOn(line) == Some(kind + comma) && AddressOn(comma) == Some(address)
    requires After(Some(address), "0x").Some? && DigitRun(After(Some(address), "0x").value, 16) == |digits| > 0
    requires 2 + |digits| <= |address| && address[..2 + |digits|] == "0x" + digits
    requires Then(After(Some(address[2 + |digits|..]), "\""), "}") == Some("")
    requires AddressOf("0x" + digits).Some?
    ensures JsonMeaning(line) == Ok(Access(isWrite, AddressOf("0x" + digits).value, None))
  {
    KindLetter(kind, isWrite, comma);
    var n := 2 + |digits|;
    var s := kind + comma;
    assert DigitRun(After(AddressOn(s[1..]), "0x").value, 16) == n - 2;
    hide KindOn, AddressOn, AddressOf, After, Then, DigitRun, KindWord;
  }

  lemma {:induction false} KindLetter(kind: string, isWrite: bool, comma: string)
    requires KindWord(kind, isWrite)
    ensures var s := kind + comma; s[1..] == comma && s[0] in "rRwW" && (s[0] in "wW" <==> isWrite)
  {
    assert (kind + comma)[1..] == comma;
  }

  lemma {:induction false} JsonHex(digits: string, n: nat)
    requires Spells(digits, n, 16)
    ensures AddressOf("0x" + digits) == Some(if n < U32_LIMIT then n else 0)
  {
    SpelledValue(digits, n, 16);
    assert ("0x" + digits)[2..] == digits;
    HexWordReads("0x" + digits, n);
    hide Spells, AddressOf, ValueOf;
  }

  // ---------- Nothing else is read ----------

  function GapOf(s: string): (gap: string)
    ensures |gap| <= |s|
  {
    if s != "" && IsSpace(s[0]) then [s[0]] + GapOf(s[1..]) else ""
  }

  lemma {:induction false} GapSplits(s: string)
    ensures s == GapOf(s) + SkipSpace(s) && AllSpace(GapOf(s))
  {
    if s != "" && IsSpace(s[0]) {
      GapSplits(s[1..]);
      assert s == [s[0]] + s[1..];
    }
  }

  lemma {:induction false} AfterInverts(s: string, literal: string)
    requires After(Some(s), literal).Some?
    ensures s == literal + After(Some(s), literal).value
  {
  }

  lemma {:induction false} ThenInverts(s: string, literal: string)
    requires Then(Some(s), literal).Some?
    ensures s == GapOf(s) + (literal + Then(Some(s), literal).value) && AllSpace(GapOf(s))
  {
    GapSplits(s);
    AfterInverts(SkipSpace(s), literal);
    hide SkipSpace, After, GapOf, AllSpace;
  }

  lemma {:induction false} KindOnInverts(line: string) returns (gap0: string, gap1: string, gap2: string)
    requires KindOn(line).Some?
    ensures AllSpace(gap0) && AllSpace(gap1) && AllSpace(gap2)
    ensures line == "{" + (gap0 + ("\"type\"" + (gap1 + (":" + (gap2 + ("\"" + KindOn(line).value))))))
  {
    hide After, Then, GapOf, AllSpace;
    NoneStays();
    var s1 := After(Some(line), "{").value;
    var s2 := Then(Some(s1), "\"type\"").value;
    var s3 := Then(Some(s2), ":").value;
    AfterInverts(line, "{");
    ThenInverts(s1, "\"type\"");
    ThenInverts(s2, ":");
    ThenInverts(s3, "\"");
    gap0, gap1, gap2 := GapOf(s1), GapOf(s2), GapOf(s3);
  }

  lemma {:induction false} NoneStays()
    ensures forall literal :: After(None, literal) == None
    ensures forall literal :: Then(None, literal) == None
  {
  }

  lemma {:induction false} AddressOnInverts(s: string)
    returns (gap3: string, gap4: string, gap5: string, gap6: string)
    requires AddressOn(s).Some?
    ensures AllSpace(gap3) && AllSpace(gap4) && AllSpace(gap5) && AllSpace(gap6)
    ensures s == "\"" + (gap3 + ("," + (gap4 + ("\"address\"" + (gap5 + (":" + (gap6 + ("\"" + AddressOn(s).value))))))))
  {
    hide After, Then, GapOf, AllSpace;
    NoneStays();
    var s0 := After(Some(s), "\"").value;
    var s1 := Then(Some(s0), ",").value;
    var s2 := Then(Some(s1), "\"address\"").value;
    var s3 := Then(Some(s2), ":").value;
    AfterInverts(s, "\"");
    ThenInverts(s0, ",");
    ThenInverts(s1, "\"address\"");
    ThenInverts(s2, ":");
    ThenInverts(s3, "\"");
    gap3, gap4, gap5, gap6 := GapOf(s0), GapOf(s1), GapOf(s2), GapOf(s3);
  }

  lemma {:induction false} EndInverts(s: string) returns (digits: string, gap7: string)
    requires After(Some(s), "0x").Some? && DigitRun(After(Some(s), "0x").value, 16) > 0
    requires var n := 2 + DigitRun(After(Some(s), "0x").value, 16);
             n <= |s| && Then(After(Some(s[n..]), "\""), "}") == Some("")
    ensures AllSpace(gap7) && digits != "" && HexDigits(digits)
    ensures s == "0x" + (digits + ("\"" + (gap7 + ("}" + ""))))
  {
    hide Then, GapOf, AllSpace;
    NoneStays();
    var hex := After(Some(s), "0x").value;
    AfterInverts(s, "0x");
    var n := DigitRun(hex, 16);
    digits := hex[..n];
    RunIsDigits(hex);
    var end := s[2 + n..];
    assert s == "0x" + (digits + end);
    AfterInverts(end, "\"");
    var last := After(Some(end), "\"").value;
    ThenInverts(last, "}");
    gap7 := GapOf(last);
  }

  ghost predicate HexDigits(s: string) { forall k :: 0 <= k < |s| ==> DigitValue(s[k]) < 16 }

  lemma {:induction false} RunIsDigits(s: string)
    ensures HexDigits(s[..DigitRun(s, 16)])
  {
    var n := DigitRun(s, 16);
    if n > 0 {
      RunIsDigits(s[1..]);
      forall k | 0 <= k < n
        ensures DigitValue(s[..n][k]) < 16
      {
        if k > 0 { assert s[..n][k] == s[1..][..n - 1][k - 1]; }
      }
    }
  }

  // The lines of the form, whatever the value of their digits.
  ghost predicate JsonShaped(w: JsonWriting) {
    WellGapped(w) && (KindWord(w.kind, false) || KindWord(w.kind, true)) && w.digits != "" && HexDigits(w.digits)
  }

  // Any other line is refused, and as no line of the format.
  lemma {:induction false} OnlyJsonIsRead(line: string)
    ensures (exists w :: JsonShaped(w) && JsonText(w) == line) || JsonMeaning(line) == Err(InvalidJsonFormat)
  {
    if JsonMeaning(line) != Err(InvalidJsonFormat) {
      var kind := KindOn(line).value;
      var address := AddressOn(kind[1..]).value;
      var w := WritingOf(line, kind, address);
      assert JsonShaped(w) && JsonText(w) == line;
    }
    hide KindOn, AddressOn, AddressOf, JsonText, JsonShaped;
  }

  lemma {:induction false} WritingOf(line: string, kind: string, address: string) returns (w: JsonWriting)
    requires KindOn(line) == Some(kind) && kind != "" && kind[0] in "rRwW" && AddressOn(kind[1..]) == Some(address)
    requires After(Some(address), "0x").Some? && DigitRun(After(Some(address), "0x").value, 16) > 0
    requires var n := 2 + DigitRun(After(Some(address), "0x").value, 16);
             n <= |address| && Then(After(Some(address[n..]), "\""), "}") == Some("")
    ensures JsonShaped(w) && JsonText(w) == line
  {
    hide KindOn, AddressOn, After, Then, DigitRun, AllSpace, HexDigits;
    var gap0, gap1, gap2 := KindOnInverts(line);
    var gap3, gap4, gap5, gap6 := AddressOnInverts(kind[1..]);
    var digits, gap7 := EndInverts(address);
    assert kind == [kind[0]] + kind[1..];
    w := JsonWriting(gap0, gap1, gap2, gap3, gap4, gap5, gap6, gap7, [kind[0]], digits);
  }

  // A line that does not open and close the braces, as those of the documented example.
  lemma {:induction false} UnbracedIsRefused(line: string)
    requires line == "" || line[0] != '{' || line[|line| - 1] != '}'
    ensures JsonMeaning(line) == Err(InvalidJsonFormat)
  {
    OnlyJsonIsRead(line);
    if w :| JsonShaped(w) && JsonText(w) == line {
      TextIsBraced(w);
    }
    hide JsonMeaning, JsonText;
  }

  lemma {:induction false} TextIsBraced(w: JsonWriting)
    ensures var s := JsonText(w); s != "" && s[0] == '{' && s[|s| - 1] == '}'
  {
    var tail := FromAddress(w);
    assert tail[|tail| - 1] == '}';
    assert FromComma(w)[|FromComma(w)| - 1] == '}' by { hide FromAddress; }
    hide FromAddress, FromComma;
  }
}
