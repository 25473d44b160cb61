/** The progress-line interpreter and the line splitter of hls-tui/runner.go.

    The splitter cuts a subprocess's output into records at the first `\n`
    or `\r`, emits an unterminated rest at end of stream, and forwards the
    trimmed non-empty records in order. The interpreter recognises the two
    kinds of line the encoding script produces: a sub-job start marker
    (`Converting to 1080p (`) and an ffmpeg elapsed-time marker
    (`time=00:01:23.45`), turning the latter into a fraction of the total
    duration. */
module Runner {
  import opened Text
  import opened Wrappers

  // ---------------------------------------------------------------------
  // Line splitter
  // ---------------------------------------------------------------------

  predicate NoBreak(s: string) {
    forall k :: 0 <= k < |s| ==> !IsBreak(s[k])
  }

  /** The index of the first `\n` or `\r` in `data`, or |data| if there is none. */
  function FirstBreak(data: string): (i: nat)
    ensures i <= |data|
  {
    if data == [] then 0
    else if IsBreak(data[0]) then 0
    else 1 + FirstBreak(data[1..])
  }

  /** FirstBreak is a terminator, or the end, with no terminator before it. */
  lemma {:induction false} FirstBreakFacts(data: string)
    ensures FirstBreak(data) < |data| ==> IsBreak(data[FirstBreak(data)])
    ensures NoBreak(data[..FirstBreak(data)])
  {
    if data != [] && !IsBreak(data[0]) {
      FirstBreakFacts(data[1..]);
      var i := FirstBreak(data);
      assert data[..i] == [data[0]] + data[1..][..i - 1];
    }
  }

  /** The first terminator found by scanning is FirstBreak. */
  lemma {:induction false} FirstBreakAt(s: string, i: nat)
    requires i <= |s| && (i < |s| ==> IsBreak(s[i]))
    requires forall k :: 0 <= k < i ==> !IsBreak(s[k])
    ensures FirstBreak(s) == i
  {
    if i > 0 {
      FirstBreakAt(s[1..], i - 1);
    }
  }

  /** What dropCRLF returns: `b` without its run of trailing terminators. */
  function StripTrailingBreaks(b: string): (r: string)
    ensures |r| <= |b| && r == b[..|r|]
    ensures r == [] || !IsBreak(r[|r| - 1])
    ensures forall k :: |r| <= k < |b| ==> IsBreak(b[k])
  {
    if b != [] && IsBreak(b[|b| - 1]) then StripTrailingBreaks(b[..|b| - 1]) else b
  }

  /** dropCRLF: walks back from the end while the last byte is a terminator. */
  method DropCRLF(b: string) returns (r: string)
    ensures r == StripTrailingBreaks(b)
  {
    var n := |b|;
    while n > 0 && (b[n - 1] == '\n' || b[n - 1] == '\r')
      invariant 0 <= n <= |b|
      invariant StripTrailingBreaks(b[..n]) == StripTrailingBreaks(b)
    {
      assert b[..n - 1] == b[..n][..n - 1];
      n := n - 1;
    }
    r := b[..n];
  }

  /** Stripping is idempotent. */
  lemma StripIdempotent(b: string)
    ensures StripTrailingBreaks(StripTrailingBreaks(b)) == StripTrailingBreaks(b)
  {
  }

  /** Stripping changes nothing when `b` does not end in a terminator. */
  lemma StripIdentity(b: string)
    requires b == [] || !IsBreak(b[|b| - 1])
    ensures StripTrailingBreaks(b) == b
  {
  }

  /** The split function given to bufio.Scanner. It returns how many bytes
      to consume and the token, or (0, None) to ask for more input. */
  method SplitRecord(data: string, atEOF: bool) returns (advance: nat, token: Option<string>)
    ensures FirstBreak(data) < |data| ==>
      advance == FirstBreak(data) + 1 && token == Some(data[..FirstBreak(data)])
    ensures FirstBreak(data) == |data| && atEOF && |data| > 0 ==>
      advance == |data| && token == Some(data)
    ensures FirstBreak(data) == |data| && !(atEOF && |data| > 0) ==>
      advance == 0 && token == None
    ensures token.Some? ==> NoBreak(token.value)
  {
    var i := 0;
    while i < |data|
      invariant 0 <= i <= |data|
      invariant forall k :: 0 <= k < i ==> !IsBreak(data[k])
    {
      if data[i] == '\n' || data[i] == '\r' {
        FirstBreakAt(data, i);
        var t := DropCRLF(data[..i]);
        return i + 1, Some(t);
      }
      i := i + 1;
    }
    FirstBreakAt(data, |data|);
    if atEOF && |data| > 0 {
      var t := DropCRLF(data);
      return |data|, Some(t);
    }
    return 0, None;
  }

  /** The records a complete stream is cut into, before empty ones are
      dropped: none for an empty stream, and at most one per character. */
  function Records(data: string): (rs: seq<string>)
    ensures rs == [] <==> data == []
    ensures |rs| <= |data|
    decreases |data|
  {
    if data == [] then []
    else if FirstBreak(data) < |data| then
      [data[..FirstBreak(data)]] + Records(data[FirstBreak(data) + 1..])
    else [data]
  }

  /** What scanLines forwards for one record: the trimmed record, if non-empty. */
  function ForwardedOne(r: string): seq<string>
  {
    if TrimSpace(r) != "" then [TrimSpace(r)] else []
  }

  /** What scanLines forwards for a sequence of records, in order: at most
      one line per record. */
  function Forwarded(rs: seq<string>): (out: seq<string>)
    ensures |out| <= |rs|
  {
    if rs == [] then [] else ForwardedOne(rs[0]) + Forwarded(rs[1..])
  }

  /** scanLines over a complete byte stream: `out` models the channel, in
      send order, and `rest` the input the scanner has not consumed yet. */
  method ScanLines(data: string) returns (out: seq<string>)
    ensures out == Forwarded(Records(data))
  {
    out := [];
    var rest := data;
    while true
      invariant Forwarded(Records(data)) == out + Forwarded(Records(rest))
      decreases |rest|
    {
      var advance, token := SplitRecord(rest, true);
      if token.None? {
        assert out + [] == out;
        break;
      }
      ScanStep(Forwarded(Records(data)), out, rest, advance, token.value);
      out := Forward(out, token.value);
      rest := rest[advance..];
    }
  }

  /** The loop invariant of scanLines survives one record. */
  lemma ScanStep(total: seq<string>, sent: seq<string>, s: string, advance: nat, tok: string)
    requires total == sent + Forwarded(Records(s))
    requires FirstBreak(s) < |s| ==> advance == FirstBreak(s) + 1 && tok == s[..FirstBreak(s)]
    requires FirstBreak(s) == |s| ==> |s| > 0 && advance == |s| && tok == s
    ensures 0 < advance <= |s|
    ensures total == (sent + ForwardedOne(tok)) + Forwarded(Records(s[advance..]))
  {
    ForwardedStep(s, advance, tok);
    SeqAssoc(sent, ForwardedOne(tok), Forwarded(Records(s[advance..])));
  }

  /** The body of the scanning loop: trim the token and send it unless it
      is empty. */
  method Forward(sent: seq<string>, tok: string) returns (out: seq<string>)
    ensures out == sent + ForwardedOne(tok)
  {
    var ln := TrimSpace(tok);
    if ln != "" {
      out := sent + [ln];
    } else {
      out := sent;
    }
  }

  lemma SeqAssoc<T>(a: seq<T>, b: seq<T>, c: seq<T>)
    ensures (a + b) + c == a + (b + c)
  {
  }

  /** One step of the split at end of stream peels the first record off. */
  lemma RecordsAfterSplit(s: string, advance: nat, tok: string)
    requires FirstBreak(s) < |s| ==> advance == FirstBreak(s) + 1 && tok == s[..FirstBreak(s)]
    requires FirstBreak(s) == |s| ==> |s| > 0 && advance == |s| && tok == s
    ensures advance <= |s|
    ensures Records(s) == [tok] + Records(s[advance..])
  {
    if FirstBreak(s) < |s| {
      assert s != [];
      assert Records(s) == [s[..FirstBreak(s)]] + Records(s[FirstBreak(s) + 1..]);
    } else {
      assert s[advance..] == [];
      assert Records(s) == [s];
    }
  }

  /** What one step of scanLines forwards, and what is left for later. */
  lemma ForwardedStep(s: string, advance: nat, tok: string)
    requires FirstBreak(s) < |s| ==> advance == FirstBreak(s) + 1 && tok == s[..FirstBreak(s)]
    requires FirstBreak(s) == |s| ==> |s| > 0 && advance == |s| && tok == s
    ensures 0 < advance <= |s|
    ensures Forwarded(Records(s)) == ForwardedOne(tok) + Forwarded(Records(s[advance..]))
  {
    RecordsAfterSplit(s, advance, tok);
    ForwardedCons(tok, Records(s[advance..]));
  }

  lemma ForwardedCons(r: string, rs: seq<string>)
    ensures Forwarded([r] + rs) == ForwardedOne(r) + Forwarded(rs)
  {
    assert ([r] + rs)[1..] == rs;
  }

  /** No record holds a terminator. */
  lemma {:induction false} RecordsHaveNoBreaks(data: string)
    ensures forall k :: 0 <= k < |Records(data)| ==> NoBreak(Records(data)[k])
    decreases |data|
  {
    if data != [] && FirstBreak(data) < |data| {
      FirstBreakFacts(data);
      RecordsHaveNoBreaks(data[FirstBreak(data) + 1..]);
    } else if data != [] {
      FirstBreakFacts(data);
      assert data[..FirstBreak(data)] == data;
    }
  }

  /** Records terminated by `\n` and concatenated. */
  function Terminated(rs: seq<string>): string
  {
    if rs == [] then "" else rs[0] + "\n" + Terminated(rs[1..])
  }

  /** Splitting a stream of `\n`-terminated records gives the records back. */
  lemma {:induction false} RecordsRoundTrip(rs: seq<string>)
    requires forall k :: 0 <= k < |rs| ==> NoBreak(rs[k])
    ensures Records(Terminated(rs)) == rs
  {
    if rs != [] {
      var tail := Terminated(rs[1..]);
      assert Terminated(rs) == rs[0] + ['\n'] + tail;
      RecordsCons(rs[0], '\n', tail);
      RecordsRoundTrip(rs[1..]);
    }
  }

  /** Forwarding keeps stream order: records forwarded in two halves come out
      as the forwarded first half followed by the forwarded second half. */
  lemma {:induction false} ForwardedAppend(a: seq<string>, b: seq<string>)
    ensures Forwarded(a + b) == Forwarded(a) + Forwarded(b)
  {
    if a == [] {
      assert a + b == b;
    } else {
      assert (a + b)[0] == a[0];
      assert (a + b)[1..] == a[1..] + b;
      ForwardedAppend(a[1..], b);
    }
  }

  /** Every forwarded line is non-empty and already trimmed. */
  lemma {:induction false} ForwardedAreTrimmed(rs: seq<string>)
    ensures forall k :: 0 <= k < |Forwarded(rs)| ==>
      Forwarded(rs)[k] != "" && TrimSpace(Forwarded(rs)[k]) == Forwarded(rs)[k]
  {
    if rs != [] {
      TrimSpaceIdempotent(rs[0]);
      ForwardedAreTrimmed(rs[1..]);
    }
  }

  /** A `\r\n` pair ends a record and then an empty one; the empty record is
      not forwarded. */
  lemma CrLfRecord(a: string, rest: string)
    requires NoBreak(a)
    ensures Records(a + "\r\n" + rest) == [a, ""] + Records(rest)
    ensures Forwarded(Records(a + "\r\n" + rest)) == ForwardedOne(a) + Forwarded(Records(rest))
  {
    CrLfRecords(a, rest);
    ForwardedSkipsEmpty(a, Records(rest));
  }

  lemma CrLfRecords(a: string, rest: string)
    requires NoBreak(a)
    ensures Records(a + "\r\n" + rest) == [a, ""] + Records(rest)
  {
    var t := "\n" + rest;
    assert a + "\r\n" + rest == a + ['\r'] + t;
    RecordsCons(a, '\r', t);
    assert t == [] + ['\n'] + rest;
    RecordsCons([], '\n', rest);
  }

  lemma ForwardedSkipsEmpty(a: string, rs: seq<string>)
    ensures Forwarded([a, ""] + rs) == ForwardedOne(a) + Forwarded(rs)
  {
    assert [a, ""] + rs == [a] + ([""] + rs);
    ForwardedCons(a, [""] + rs);
    ForwardedCons("", rs);
    assert ForwardedOne("") == [];
  }

  /** The stream "a\r\nb\rc\n" is cut into "a", "", "b", "c", and "a", "b",
      "c" are forwarded. */
  lemma SplitExample(data: string)
    requires data == "a\r\nb\rc\n"
    ensures Records(data) == ["a", "", "b", "c"]
    ensures Forwarded(Records(data)) == ["a", "b", "c"]
  {
    assert data == [data[0], '\r', '\n', data[3], '\r', data[5], '\n'];
    SplitShape(data[0], data[3], data[5]);
  }

  /** The shape of that stream with any three letters. */
  lemma SplitShape(x: char, y: char, z: char)
    requires !IsBreak(x) && !IsBreak(y) && !IsBreak(z)
    requires !IsSpace(x) && !IsSpace(y) && !IsSpace(z)
    ensures Records([x, '\r', '\n', y, '\r', z, '\n']) == [[x], [], [y], [z]]
    ensures Forwarded(Records([x, '\r', '\n', y, '\r', z, '\n'])) == [[x], [y], [z]]
  {
    var rest := [y, '\r', z, '\n'];
    assert [x, '\r', '\n', y, '\r', z, '\n'] == [x] + "\r\n" + rest;
    CrLfRecord([x], rest);
    LetterRecords(y, '\r', z, '\n');
    LetterForwarded(x, y, z);
  }

  /** Two one-letter records, each with its terminator. */
  lemma LetterRecords(x: char, c1: char, y: char, c2: char)
    requires !IsBreak(x) && IsBreak(c1) && !IsBreak(y) && IsBreak(c2)
    ensures Records([x, c1, y, c2]) == [[x], [y]]
  {
    assert [x] + [c1] + [y, c2] == [x, c1, y, c2];
    RecordsCons([x], c1, [y, c2]);
    assert [y] + [c2] + [] == [y, c2];
    RecordsCons([y], c2, []);
  }

  lemma LetterForwarded(x: char, y: char, z: char)
    requires !IsSpace(x) && !IsSpace(y) && !IsSpace(z)
    ensures ForwardedOne([x]) + Forwarded([[y], [z]]) == [[x], [y], [z]]
  {
    ForwardedLetter(x);
    ForwardedLetter(y);
    ForwardedLetter(z);
    assert [[y], [z]] == [[y]] + [[z]];
    ForwardedCons([y], [[z]]);
    assert [[z]] == [[z]] + [];
    ForwardedCons([z], []);
  }

  /** A one-letter record is forwarded as it is. */
  lemma ForwardedLetter(c: char)
    requires !IsSpace(c)
    ensures ForwardedOne([c]) == [[c]]
  {
    TrimSpaceIdentity([c]);
  }

  /** A record followed by its terminator comes off the front of the stream. */
  lemma RecordsCons(a: string, c: char, rest: string)
    requires NoBreak(a) && IsBreak(c)
    ensures Records(a + [c] + rest) == [a] + Records(rest)
  {
    var s := a + [c] + rest;
    assert s[|a|] == c;
    assert forall k :: 0 <= k < |a| ==> s[k] == a[k];
    FirstBreakAt(s, |a|);
    RecordsAfterSplit(s, |a| + 1, s[..|a|]);
    assert s[..|a|] == a && s[|a| + 1..] == rest;
  }

  /** The records that are not empty, in order. */
  function NonEmpty(rs: seq<string>): seq<string>
  {
    if rs == [] then [] else (if rs[0] != "" then [rs[0]] else []) + NonEmpty(rs[1..])
  }

  /** On records that carry no whitespace at their ends, scanLines forwards
      exactly the non-empty ones. */
  lemma {:induction false} ForwardedUntrimmed(rs: seq<string>)
    requires forall k :: 0 <= k < |rs| ==>
      rs[k] == [] || (!IsSpace(rs[k][0]) && !IsSpace(rs[k][|rs[k]| - 1]))
    ensures Forwarded(rs) == NonEmpty(rs)
  {
    if rs != [] {
      assert TrimSpace(rs[0]) == rs[0] by { TrimSpaceIdentity(rs[0]); }
      assert ForwardedOne(rs[0]) == (if rs[0] != "" then [rs[0]] else []);
      assert Forwarded(rs) == ForwardedOne(rs[0]) + Forwarded(rs[1..]);
      ForwardedUntrimmed(rs[1..]);
    }
  }

  // ---------------------------------------------------------------------
  // Numbers: atoi, atof and the clock parser
  // ---------------------------------------------------------------------

  /** The number of digits at the start of `s`. */
  function LeadingDigits(s: string): (n: nat)
    ensures n <= |s|
  {
    if s != [] && IsDigit(s[0]) then 1 + LeadingDigits(s[1..]) else 0
  }

  /** The leading digits are digits, and the character after them is not. */
  lemma {:induction false} LeadingDigitsFacts(s: string)
    ensures AllDigits(s[..LeadingDigits(s)])
    ensures LeadingDigits(s) < |s| ==> !IsDigit(s[LeadingDigits(s)])
  {
    if s != [] && IsDigit(s[0]) {
      LeadingDigitsFacts(s[1..]);
      assert s[..LeadingDigits(s)] == [s[0]] + s[1..][..LeadingDigits(s[1..])];
    }
  }

  /** A digit string is all leading digits. */
  lemma {:induction false} LeadingDigitsAll(s: string)
    requires AllDigits(s)
    ensures LeadingDigits(s) == |s|
  {
    if s != [] {
      LeadingDigitsAll(s[1..]);
    }
  }

  /** strconv.Atoi returning 0 on a syntax error: an optional sign followed
      by one or more decimal digits. */
  function ParseInt(t: string): int
  {
    if t != [] && (t[0] == '+' || t[0] == '-') then
      if |t| > 1 && AllDigits(t[1..]) then
        (if t[0] == '-' then -(DigitsValue(t[1..]) as int) else DigitsValue(t[1..]))
      else 0
    else if t != [] && AllDigits(t) then DigitsValue(t)
    else 0
  }

  /** atoi: ParseInt after TrimSpace. */
  function Atoi(s: string): (r: int)
    ensures AllDigits(s) ==> r == DigitsValue(s)
  {
    assert AllDigits(s) ==> TrimSpace(s) == s && ParseInt(s) == DigitsValue(s) by {
      if AllDigits(s) {
        if s != [] {
          assert IsDigit(s[0]) && IsDigit(s[|s| - 1]);
        }
        TrimSpaceIdentity(s);
        ParseIntDigits(s);
      }
    }
    ParseInt(TrimSpace(s))
  }

  /** A digit string read as the part of a decimal after the point. */
  function Fraction(f: string): real
    requires AllDigits(f)
  {
    DigitsValue(f) as real / Pow10(|f|) as real
  }

  /** A decimal mantissa `digits[.digits]` with at least one digit, or 0.0. */
  function UnsignedDecimal(t: string): real
  {
    var i := LeadingDigits(t);
    LeadingDigitsFacts(t);
    assert i == |t| ==> t[..i] == t;
    if i == |t| then DigitsValue(t) as real
    else if t[i] == '.' && AllDigits(t[i + 1..]) && (i > 0 || i + 1 < |t|) then
      DigitsValue(t[..i]) as real + Fraction(t[i + 1..])
    else 0.0
  }

  /** strconv.ParseFloat after TrimSpace on decimal input, returning 0 on a
      syntax error: an optional sign followed by a decimal mantissa. */
  function Atof(s: string): (r: real)
    ensures AllDigits(s) ==> r == DigitsValue(s) as real
  {
    assert AllDigits(s) ==> TrimSpace(s) == s && LeadingDigits(s) == |s| by {
      if AllDigits(s) {
        if s != [] {
          assert IsDigit(s[0]) && IsDigit(s[|s| - 1]);
        }
        TrimSpaceIdentity(s);
        LeadingDigitsAll(s);
      }
    }
    var t := TrimSpace(s);
    if t != [] && (t[0] == '+' || t[0] == '-') then
      var v := UnsignedDecimal(t[1..]);
      if t[0] == '-' then -v else v
    else UnsignedDecimal(t)
  }

  /** Go's float-to-int conversion: truncation toward zero. */
  function Trunc(x: real): int
  {
    if x >= 0.0 then x.Floor else -((-x).Floor)
  }

  /** parseHHMMSStoSeconds: hours and minutes as integers, seconds as a
      decimal, the sum truncated to whole seconds; 0 unless there are
      exactly three `:`-separated parts. */
  function ParseHHMMSS(s: string): (r: int)
    ensures Count(s, ':') != 2 ==> r == 0
  {
    SplitCount(s, ':');
    var parts := Split(s, ':');
    if |parts| != 3 then 0 else ClockValue(parts[0], parts[1], parts[2])
  }

  /** The clock value of hours, minutes and seconds parts. */
  function ClockValue(h: string, m: string, sec: string): int
  {
    Trunc((Atoi(h) * 3600 + Atoi(m) * 60) as real + Atof(sec))
  }

  lemma ParseIntDigits(s: string)
    requires AllDigits(s)
    ensures ParseInt(s) == DigitsValue(s)
  {
    if s != [] {
      assert IsDigit(s[0]);
    }
  }

  /** Atof on `ss` or `ss.frac` lies in [ss, ss + 1). */
  lemma AtofSeconds(ss: string, frac: string, dotted: bool)
    requires AllDigits(ss) && AllDigits(frac)
    requires dotted ==> frac != []
    ensures var t := if dotted then ss + "." + frac else ss;
      DigitsValue(ss) as real <= Atof(t) < DigitsValue(ss) as real + 1.0
  {
    if dotted {
      AtofDotted(ss, frac);
    } else {
      assert Atof(ss) == DigitsValue(ss) as real;
    }
  }

  /** Atof of an unsigned string with no blanks at its ends is its decimal value. */
  lemma AtofUnsigned(t: string)
    requires t == [] || (!IsSpace(t[0]) && !IsSpace(t[|t| - 1]) && t[0] != '+' && t[0] != '-')
    ensures Atof(t) == UnsignedDecimal(t)
  {
    TrimSpaceIdentity(t);
  }

  lemma AtofDotted(ss: string, frac: string)
    requires AllDigits(ss) && AllDigits(frac) && frac != []
    ensures DigitsValue(ss) as real <= Atof(ss + "." + frac) < DigitsValue(ss) as real + 1.0
  {
    var t := ss + "." + frac;
    UnsignedDecimalDotted(ss, frac);
    assert t[|t| - 1] == frac[|frac| - 1];
    assert t[0] != '+' && t[0] != '-' && !IsSpace(t[0]) by {
      if ss == [] { assert t[0] == '.'; } else { assert t[0] == ss[0]; }
    }
    AtofUnsigned(t);
  }

  lemma UnsignedDecimalDotted(ss: string, frac: string)
    requires AllDigits(ss) && AllDigits(frac) && frac != []
    ensures DigitsValue(ss) as real <= UnsignedDecimal(ss + "." + frac) < DigitsValue(ss) as real + 1.0
  {
    var t := ss + "." + frac;
    assert t[|ss|] == '.';
    assert forall k :: 0 <= k < |ss| ==> t[k] == ss[k];
    DigitsExact(t, |ss|);
    assert t[..|ss|] == ss;
    assert t[|ss| + 1..] == frac;
    assert UnsignedDecimal(t) == DigitsValue(ss) as real + Fraction(frac);
    DigitsValueBound(frac);
    FractionBound(frac);
  }

  lemma FractionBound(f: string)
    requires AllDigits(f)
    requires DigitsValue(f) < Pow10(|f|)
    ensures 0.0 <= Fraction(f) < 1.0
  {
    RatioBelowOne(DigitsValue(f), Pow10(|f|));
  }

  lemma RatioBelowOne(n: nat, d: nat)
    requires n < d
    ensures 0.0 <= n as real / d as real < 1.0
  {
  }

  /** Truncating a whole number plus something in [0, 1) gives the whole number. */
  lemma TruncWholePlus(n: nat, x: real)
    requires n as real <= x < n as real + 1.0
    ensures Trunc(x) == n
  {
  }

  /** On `HH:MM:SS` or `HH:MM:SS.f` made of digits, parseHHMMSStoSeconds
      gives 3600*HH + 60*MM + SS; the fraction is truncated away. */
  lemma ParseHHMMSSDigits(hh: string, mm: string, ss: string, frac: string, dotted: bool)
    requires AllDigits(hh) && AllDigits(mm) && AllDigits(ss) && AllDigits(frac)
    requires dotted ==> frac != []
    ensures var sec := if dotted then ss + "." + frac else ss;
      ParseHHMMSS(hh + ":" + mm + ":" + sec) ==
        3600 * DigitsValue(hh) + 60 * DigitsValue(mm) + DigitsValue(ss)
  {
    var sec := if dotted then ss + "." + frac else ss;
    SecondsHaveNoColon(ss, frac, dotted);
    DigitsHaveNoColon(hh);
    DigitsHaveNoColon(mm);
    ClockParts(hh, mm, sec);
    ParseHHMMSSParts(hh + ":" + mm + ":" + sec, hh, mm, sec);
    AtofSeconds(ss, frac, dotted);
    ClockValueOf(hh, mm, sec, DigitsValue(hh), DigitsValue(mm), DigitsValue(ss));
  }

  /** Whole hours and minutes plus seconds in [S, S + 1) give 3600H + 60M + S. */
  lemma ClockValueOf(h: string, m: string, sec: string, hv: nat, mv: nat, sv: nat)
    requires Atoi(h) == hv && Atoi(m) == mv
    requires sv as real <= Atof(sec) < sv as real + 1.0
    ensures ClockValue(h, m, sec) == 3600 * hv + 60 * mv + sv
  {
    var whole := 3600 * hv + 60 * mv;
    var x := Atof(sec);
    assert (Atoi(h) * 3600 + Atoi(m) * 60) as real + x == whole as real + x;
    TruncWholePlus(whole + sv, whole as real + x);
  }

  lemma DigitsHaveNoColon(d: string)
    requires AllDigits(d)
    ensures !Contains(d, ':')
  {
  }

  lemma SecondsHaveNoColon(ss: string, frac: string, dotted: bool)
    requires AllDigits(ss) && AllDigits(frac)
    ensures !Contains(if dotted then ss + "." + frac else ss, ':')
  {
    var sec := if dotted then ss + "." + frac else ss;
    forall k | 0 <= k < |sec|
      ensures sec[k] != ':'
    {
      if k < |ss| {
        assert sec[k] == ss[k];
      } else if k > |ss| {
        assert sec[k] == frac[k - |ss| - 1];
      }
    }
  }

  /** Three colon-free parts joined by colons split back into themselves. */
  lemma ClockParts(hh: string, mm: string, sec: string)
    requires !Contains(hh, ':') && !Contains(mm, ':') && !Contains(sec, ':')
    ensures Split(hh + ":" + mm + ":" + sec, ':') == [hh, mm, sec]
  {
    assert Join([sec], ':') == sec;
    assert [mm, sec][1..] == [sec];
    assert Join([mm, sec], ':') == mm + [':'] + sec;
    assert [hh, mm, sec][1..] == [mm, sec];
    assert Join([hh, mm, sec], ':') == hh + ":" + mm + ":" + sec;
    SplitJoin([hh, mm, sec], ':');
  }

  lemma ParseHHMMSSParts(s: string, a: string, b: string, c: string)
    requires Split(s, ':') == [a, b, c]
    ensures ParseHHMMSS(s) == ClockValue(a, b, c)
  {
    var parts := Split(s, ':');
    assert parts[0] == a && parts[1] == b && parts[2] == c;
  }

  /** The number of occurrences of `c` in `s`. */
  function Count(s: string, c: char): nat
  {
    if s == [] then 0 else (if s[0] == c then 1 else 0) + Count(s[1..], c)
  }

  /** strings.Split gives one more part than there are separators. */
  lemma {:induction false} SplitCount(s: string, sep: char)
    ensures |Split(s, sep)| == Count(s, sep) + 1
    decreases |s|
  {
    if exists i :: 0 <= i < |s| && s[i] == sep {
      var i := FirstIndex(s, sep);
      CountAppend(s[..i], s[i..], sep);
      assert s == s[..i] + s[i..];
      assert Count(s[..i], sep) == 0 by { CountAbsent(s[..i], sep); }
      assert s[i..][1..] == s[i + 1..];
      SplitCount(s[i + 1..], sep);
    } else {
      CountAbsent(s, sep);
    }
  }

  lemma {:induction false} CountAppend(a: string, b: string, c: char)
    ensures Count(a + b, c) == Count(a, c) + Count(b, c)
  {
    if a == [] {
      assert a + b == b;
    } else {
      assert (a + b)[0] == a[0];
      assert (a + b)[1..] == a[1..] + b;
      CountAppend(a[1..], b, c);
    }
  }

  lemma {:induction false} CountAbsent(s: string, c: char)
    requires !Contains(s, c)
    ensures Count(s, c) == 0
  {
    if s != [] {
      assert !Contains(s[1..], c) by {
        assert forall k :: 0 <= k < |s| - 1 ==> s[1..][k] == s[k + 1];
      }
      CountAbsent(s[1..], c);
    }
  }

  // ---------------------------------------------------------------------
  // Elapsed-time marker: \btime=([0-9]{2}:[0-9]{2}:[0-9]{2}(?:\.[0-9]+)?)
  // ---------------------------------------------------------------------

  /** Whether ffTimeRe matches starting at `p`: `time=` after a word
      boundary (a `t` is a word character, so the boundary holds exactly when
      `p` is 0 or the byte before is not a word character), then
      two digits, `:`, two digits, `:`, two digits. */
  predicate TimeMatchAt(line: string, p: nat) {
    p + 13 <= |line| &&
    (p == 0 || !IsWordChar(line[p - 1])) &&
    line[p..p + 5] == "time=" &&
    IsDigit(line[p + 5]) && IsDigit(line[p + 6]) && line[p + 7] == ':' &&
    IsDigit(line[p + 8]) && IsDigit(line[p + 9]) && line[p + 10] == ':' &&
    IsDigit(line[p + 11]) && IsDigit(line[p + 12])
  }

  /** The leftmost match position at or after `from`. */
  function FindTimeFrom(line: string, from: nat): (r: Option<nat>)
    ensures r.Some? ==>
      from <= r.value && TimeMatchAt(line, r.value) &&
      (forall k :: from <= k < r.value ==> !TimeMatchAt(line, k))
    ensures r.None? ==> forall k :: from <= k ==> !TimeMatchAt(line, k)
    decreases |line| - from
  {
    if from + 13 > |line| then None
    else if TimeMatchAt(line, from) then Some(from)
    else FindTimeFrom(line, from + 1)
  }

  /** Where the submatch of a match at `p` ends: after SS, and after a
      `.digits` suffix when one follows, taking all of its digits (the
      optional group and its `[0-9]+` are greedy). */
  function CaptureEnd(line: string, p: nat): (e: nat)
    requires TimeMatchAt(line, p)
    ensures p + 13 <= e <= |line|
    ensures p + 14 < |line| && line[p + 13] == '.' && IsDigit(line[p + 14]) ==> e > p + 13
    ensures e > p + 13 ==> e == |line| || !IsDigit(line[e])
  {
    var q := p + 13;
    if q + 1 < |line| && line[q] == '.' && IsDigit(line[q + 1]) then
      LeadingDigitsFacts(line[q + 1..]);
      q + 1 + LeadingDigits(line[q + 1..])
    else q
  }

  /** The submatch `HH:MM:SS[.f]` of a match at `p`. */
  function Capture(line: string, p: nat): string
    requires TimeMatchAt(line, p)
  {
    line[p + 5..CaptureEnd(line, p)]
  }

  /** The clock value written at a match at `p`, read straight off its digits. */
  function ClockSeconds(line: string, p: nat): nat
    requires TimeMatchAt(line, p)
  {
    assert AllDigits(line[p + 5..p + 7]) && AllDigits(line[p + 8..p + 10]) && AllDigits(line[p + 11..p + 13]);
    3600 * DigitsValue(line[p + 5..p + 7]) + 60 * DigitsValue(line[p + 8..p + 10]) + DigitsValue(line[p + 11..p + 13])
  }

  function Min(a: real, b: real): real {
    if a <= b then a else b
  }

  /** updateProgressFromFFmpegLine: the leftmost elapsed-time marker as a
      fraction of the duration, capped at 1; `current` when the duration is
      not positive, there is no marker, or the marker reads as 0 seconds. */
  function UpdateProgress(durationSec: int, line: string, current: real): (r: real)
    ensures r == current || 0.0 < r <= 1.0
  {
    if durationSec <= 0 then current
    else match FindTimeFrom(line, 0)
      case None => current
      case Some(p) =>
        var sec := ParseHHMMSS(Capture(line, p));
        if sec <= 0 then current
        else
          PositiveRatio(sec, durationSec);
          Min(1.0, sec as real / durationSec as real)
  }

  /** The submatch of a match at `p` parses to the clock value at `p`. */
  lemma CaptureSeconds(line: string, p: nat)
    requires TimeMatchAt(line, p)
    ensures ParseHHMMSS(Capture(line, p)) == ClockSeconds(line, p)
  {
    var e := CaptureEnd(line, p);
    var dotted := e > p + 13;
    var frac := if dotted then line[p + 14..e] else "";
    CaptureFraction(line, p);
    CaptureShape(line, p);
    ParseHHMMSSDigits(line[p + 5..p + 7], line[p + 8..p + 10], line[p + 11..p + 13], frac, dotted);
  }

  /** The optional fraction of a match is a non-empty digit string. */
  lemma CaptureFraction(line: string, p: nat)
    requires TimeMatchAt(line, p)
    ensures var e := CaptureEnd(line, p);
      e > p + 13 ==> p + 14 < e && line[p + 13] == '.' && AllDigits(line[p + 14..e])
  {
    var e := CaptureEnd(line, p);
    if e > p + 13 {
      LeadingDigitsFacts(line[p + 14..]);
      assert line[p + 14..e] == line[p + 14..][..LeadingDigits(line[p + 14..])];
    }
  }

  /** The submatch of a match at `p` is `HH:MM:SS` or `HH:MM:SS.f`. */
  lemma CaptureShape(line: string, p: nat)
    requires TimeMatchAt(line, p)
    ensures var e := CaptureEnd(line, p);
      var ss := line[p + 11..p + 13];
      var sec := if e > p + 13 then ss + "." + line[p + 14..e] else ss;
      AllDigits(line[p + 5..p + 7]) && AllDigits(line[p + 8..p + 10]) && AllDigits(ss) &&
      Capture(line, p) == line[p + 5..p + 7] + ":" + line[p + 8..p + 10] + ":" + sec
  {
    var e := CaptureEnd(line, p);
    var ss := line[p + 11..p + 13];
    var sec := if e > p + 13 then ss + "." + line[p + 14..e] else ss;
    CaptureFraction(line, p);
    assert line[p + 11..e] == sec by {
      if e > p + 13 {
        SliceSplit(line, p + 11, p + 14, e);
        SliceSplit(line, p + 11, p + 13, p + 14);
        assert line[p + 13..p + 14] == ".";
      }
    }
    ClockSlices(line, p + 5, e);
  }

  /** A slice with colons at offsets 2 and 5 is its three fields joined by colons. */
  lemma ClockSlices(s: string, a: nat, e: nat)
    requires a + 8 <= e <= |s| && s[a + 2] == ':' && s[a + 5] == ':'
    ensures s[a..e] == s[a..a + 2] + ":" + s[a + 3..a + 5] + ":" + s[a + 6..e]
  {
    assert s[a + 2..a + 3] == ":" && s[a + 5..a + 6] == ":";
    SliceSplit(s, a, a + 6, e);
    SliceSplit(s, a, a + 5, a + 6);
    SliceSplit(s, a, a + 3, a + 5);
    SliceSplit(s, a, a + 2, a + 3);
  }

  lemma SliceSplit(s: string, a: nat, b: nat, c: nat)
    requires a <= b <= c <= |s|
    ensures s[a..c] == s[a..b] + s[b..c]
  {
  }

  /** The progress of a line whose leftmost marker is at `p` is
      min(1, (3600*HH + 60*MM + SS) / duration), or `current` when that
      clock reads 0 or the duration is not positive. */
  lemma ProgressFromLeftmostMarker(durationSec: int, line: string, current: real, p: nat)
    requires TimeMatchAt(line, p)
    requires forall k :: 0 <= k < p ==> !TimeMatchAt(line, k)
    ensures var sec := ClockSeconds(line, p);
      UpdateProgress(durationSec, line, current) ==
        if durationSec <= 0 || sec == 0 then current
        else Min(1.0, sec as real / durationSec as real)
  {
    assert FindTimeFrom(line, 0) == Some(p);
    CaptureSeconds(line, p);
  }

  /** A line without a marker leaves the progress unchanged. */
  lemma ProgressWithoutMarker(durationSec: int, line: string, current: real)
    requires forall k :: !TimeMatchAt(line, k)
    ensures UpdateProgress(durationSec, line, current) == current
  {
    assert FindTimeFrom(line, 0).None?;
  }

  lemma PositiveRatio(n: int, d: int)
    requires n > 0 && d > 0
    ensures 0.0 < Min(1.0, n as real / d as real) <= 1.0
  {
  }

  // ---------------------------------------------------------------------
  // Sub-job start marker: ^Converting to\s+([0-9]{3,4})p\s+\(
  // ---------------------------------------------------------------------

  const JobPrefix: string := "Converting to"

  /** The pieces of a job start line: the blanks after the prefix, the
      height digits, the blanks after `p`. */
  datatype JobMarker = JobMarker(gap: string, digits: string, gap2: string)

  predicate AllRegexSpace(s: string) {
    forall k :: 0 <= k < |s| ==> IsRegexSpace(s[k])
  }

  /** Whether `s` starts with blanks, 3 or 4 digits, `p`, blanks and `(`,
      with exactly these pieces. */
  predicate IsMarkerBody(s: string, m: JobMarker) {
    |m.gap| >= 1 && AllRegexSpace(m.gap) &&
    3 <= |m.digits| <= 4 && AllDigits(m.digits) &&
    |m.gap2| >= 1 && AllRegexSpace(m.gap2) &&
    HasPrefix(s, m.gap + (m.digits + ("p" + (m.gap2 + "("))))
  }

  /** Whether `line` starts with `Converting to` followed by a marker body. */
  predicate IsJobMarker(line: string, m: JobMarker) {
    HasPrefix(line, JobPrefix) && IsMarkerBody(line[|JobPrefix|..], m)
  }

  /** The number of blanks at the start of `s`. */
  function LeadingBlanks(s: string): (n: nat)
    ensures n <= |s|
  {
    if s != [] && IsRegexSpace(s[0]) then 1 + LeadingBlanks(s[1..]) else 0
  }

  /** The leading blanks are blanks, and the character after them is not. */
  lemma {:induction false} LeadingBlanksFacts(s: string)
    ensures AllRegexSpace(s[..LeadingBlanks(s)])
    ensures LeadingBlanks(s) < |s| ==> !IsRegexSpace(s[LeadingBlanks(s)])
  {
    if s != [] && IsRegexSpace(s[0]) {
      LeadingBlanksFacts(s[1..]);
      assert s[..LeadingBlanks(s)] == [s[0]] + s[1..][..LeadingBlanks(s[1..])];
    }
  }

  /** jobStartRe matched at the start of `line`. */
  function MatchJobStart(line: string): (r: Option<JobMarker>)
    ensures r.Some? ==> 3 <= |r.value.digits| <= 4 && AllDigits(r.value.digits)
  {
    match AfterLiteral(line, JobPrefix)
    case None => None
    case Some(rest) =>
      MatchMarkerBodySound(rest);
      MatchMarkerBody(rest)
  }

  /** Matches the literal `lit` one character at a time and returns what
      follows it. */
  function AfterLiteral(s: string, lit: string): Option<string>
    decreases |lit|
  {
    if lit == [] then Some(s)
    else if s != [] && s[0] == lit[0] then AfterLiteral(s[1..], lit[1..])
    else None
  }

  lemma {:induction false} AfterLiteralIsPrefix(s: string, lit: string)
    ensures AfterLiteral(s, lit) == if HasPrefix(s, lit) then Some(s[|lit|..]) else None
    decreases |lit|
  {
    if lit != [] && s != [] {
      AfterLiteralIsPrefix(s[1..], lit[1..]);
      if s[0] == lit[0] {
        PrefixCons(s, lit);
      }
    }
  }

  /** A prefix that agrees on the first character. */
  lemma PrefixCons(s: string, lit: string)
    requires s != [] && lit != [] && s[0] == lit[0]
    ensures HasPrefix(s, lit) <==> HasPrefix(s[1..], lit[1..])
    ensures HasPrefix(s, lit) ==> s[|lit|..] == s[1..][|lit| - 1..]
  {
    if |lit| <= |s| {
      assert s[..|lit|] == [s[0]] + s[1..][..|lit| - 1];
      assert lit == [lit[0]] + lit[1..];
    }
  }

  /** The part of jobStartRe after `Converting to`. The greedy `\s+` runs to
      the first non-blank; `[0-9]{3,4}` followed by `p` matches only when the
      digit run there has length 3 or 4, because a longer run leaves a digit
      where `p` must be, whichever of the two lengths is tried. */
  function MatchMarkerBody(s: string): Option<JobMarker>
  {
    var g := LeadingBlanks(s);
    var rest := s[g..];
    var d := LeadingDigits(rest);
    if g == 0 || d < 3 || d > 4 || d >= |rest| || rest[d] != 'p' then None
    else
      var after := rest[d + 1..];
      var g2 := LeadingBlanks(after);
      if g2 == 0 || g2 >= |after| || after[g2] != '(' then None
      else Some(JobMarker(s[..g], rest[..d], after[..g2]))
  }

  /** detectJobStartHeight: the captured digits read by atoi, else 0. */
  function DetectJobStartHeight(line: string): (h: int)
    ensures 0 <= h <= 9999
  {
    match MatchJobStart(line)
    case None => 0
    case Some(m) =>
      MatchJobStartSound(line);
      HeightValue(m.digits);
      Atoi(m.digits)
  }

  /** Three or four digits read by atoi give their value, at most 9999. */
  lemma HeightValue(d: string)
    requires 3 <= |d| <= 4 && AllDigits(d)
    ensures Atoi(d) == DigitsValue(d) <= 9999
  {
    assert Atoi(d) == DigitsValue(d);
    FourDigitsBound(d);
  }

  lemma FourDigitsBound(d: string)
    requires |d| <= 4 && AllDigits(d)
    ensures DigitsValue(d) <= 9999
  {
    DigitsValueBound(d);
    assert Pow10(4) == 10000;
    Pow10Monotone(|d|, 4);
  }

  lemma {:induction false} Pow10Monotone(a: nat, b: nat)
    requires a <= b
    ensures Pow10(a) <= Pow10(b)
    decreases b
  {
    if a < b {
      Pow10Monotone(a, b - 1);
    }
  }

  /** Splitting a prefix that is a concatenation. */
  lemma PrefixParts(s: string, a: string, b: string)
    requires HasPrefix(s, a + b)
    ensures HasPrefix(s, a) && HasPrefix(s[|a|..], b)
  {
    assert s[..|a|] == (a + b)[..|a|];
    assert s[|a|..][..|b|] == (a + b)[|a|..];
  }

  /** Joining a prefix and a prefix of the rest. */
  lemma PrefixJoin(s: string, a: string, b: string)
    requires HasPrefix(s, a) && HasPrefix(s[|a|..], b)
    ensures HasPrefix(s, a + b)
  {
    assert s[..|a| + |b|] == s[..|a|] + s[|a|..][..|b|];
  }

  /** Whatever the matcher returns is a genuine job start line. */
  lemma MatchJobStartSound(line: string)
    ensures MatchJobStart(line).Some? ==> IsJobMarker(line, MatchJobStart(line).value)
  {
    AfterLiteralIsPrefix(line, JobPrefix);
    if MatchJobStart(line).Some? {
      MatchMarkerBodySound(line[|JobPrefix|..]);
    }
  }

  lemma MatchMarkerBodySound(s: string)
    ensures MatchMarkerBody(s).Some? ==> IsMarkerBody(s, MatchMarkerBody(s).value)
  {
    if MatchMarkerBody(s).Some? {
      var m := MatchMarkerBody(s).value;
      var g := LeadingBlanks(s);
      var rest := s[g..];
      var d := LeadingDigits(rest);
      var after := rest[d + 1..];
      var g2 := LeadingBlanks(after);
      LeadingBlanksFacts(s);
      LeadingDigitsFacts(rest);
      LeadingBlanksFacts(after);
      assert m.gap == s[..g] && m.digits == rest[..d] && m.gap2 == after[..g2];
      assert HasPrefix(after, m.gap2 + "(") by {
        assert after[..g2 + 1] == m.gap2 + "(";
      }
      assert HasPrefix(rest, m.digits + "p") by {
        assert rest[..d + 1] == m.digits + "p";
      }
      assert HasPrefix(s, m.gap);
      MarkerPieces(s, m.gap, m.digits, m.gap2);
    }
  }

  /** The three pieces found one after the other make up a marker prefix. */
  lemma MarkerPieces(s: string, gap: string, digits: string, gap2: string)
    requires HasPrefix(s, gap)
    requires HasPrefix(s[|gap|..], digits + "p")
    requires HasPrefix(s[|gap|..][|digits| + 1..], gap2 + "(")
    ensures HasPrefix(s, gap + (digits + ("p" + (gap2 + "("))))
  {
    var rest := s[|gap|..];
    assert rest[|digits + "p"|..] == rest[|digits| + 1..];
    PrefixJoin(rest, digits + "p", gap2 + "(");
    assert digits + "p" + (gap2 + "(") == digits + ("p" + (gap2 + "("));
    PrefixJoin(s, gap, digits + ("p" + (gap2 + "(")));
  }

  /** A genuine job start line is recognised, with the same pieces. */
  lemma MatchJobStartComplete(line: string, m: JobMarker)
    requires IsJobMarker(line, m)
    ensures MatchJobStart(line) == Some(m)
  {
    AfterLiteralIsPrefix(line, JobPrefix);
    MatchMarkerBodyComplete(line[|JobPrefix|..], m);
  }

  lemma MatchMarkerBodyComplete(s: string, m: JobMarker)
    requires IsMarkerBody(s, m)
    ensures MatchMarkerBody(s) == Some(m)
  {
    MarkerLayout(s, m);
    MarkerRuns(s, m.gap, m.digits, m.gap2);
    MatchMarkerBodyAt(s, |m.gap|, |m.digits|, |m.gap2|);
  }

  /** Where the pieces of a marker body sit in the string. */
  lemma MarkerLayout(s: string, m: JobMarker)
    requires IsMarkerBody(s, m)
    ensures |m.gap| < |s| && s[..|m.gap|] == m.gap
    ensures var rest := s[|m.gap|..];
      |m.digits| < |rest| && rest[..|m.digits|] == m.digits && rest[|m.digits|] == 'p' &&
      var after := rest[|m.digits| + 1..];
      |m.gap2| < |after| && after[..|m.gap2|] == m.gap2 && after[|m.gap2|] == '('
  {
    PrefixParts(s, m.gap, m.digits + ("p" + (m.gap2 + "(")));
    var rest := s[|m.gap|..];
    PrefixParts(rest, m.digits, "p" + (m.gap2 + "("));
    var rest2 := rest[|m.digits|..];
    PrefixParts(rest2, "p", m.gap2 + "(");
    var after := rest2[1..];
    PrefixParts(after, m.gap2, "(");
    assert rest[|m.digits|] == 'p' by { assert rest2[0] == 'p'; }
    assert after == rest[|m.digits| + 1..];
  }

  /** With the pieces in place, the greedy runs measure exactly them. */
  lemma MarkerRuns(s: string, gap: string, digits: string, gap2: string)
    requires |gap| < |s| && s[..|gap|] == gap && AllRegexSpace(gap)
    requires 1 <= |digits| && AllDigits(digits)
    requires var rest := s[|gap|..];
      |digits| < |rest| && rest[..|digits|] == digits && rest[|digits|] == 'p' &&
      var after := rest[|digits| + 1..];
      |gap2| < |after| && after[..|gap2|] == gap2 && after[|gap2|] == '(' && AllRegexSpace(gap2)
    ensures LeadingBlanks(s) == |gap|
    ensures LeadingDigits(s[|gap|..]) == |digits|
    ensures LeadingBlanks(s[|gap|..][|digits| + 1..]) == |gap2|
  {
    var rest := s[|gap|..];
    var after := rest[|digits| + 1..];
    assert forall k :: 0 <= k < |gap| ==> s[k] == gap[k];
    assert s[|gap|] == rest[0] == digits[0];
    BlanksExact(s, |gap|);
    assert forall k :: 0 <= k < |digits| ==> rest[k] == digits[k];
    DigitsExact(rest, |digits|);
    assert forall k :: 0 <= k < |gap2| ==> after[k] == gap2[k];
    BlanksExact(after, |gap2|);
  }

  /** The matcher's result once the three runs it measures are known. */
  lemma MatchMarkerBodyAt(s: string, g: nat, d: nat, g2: nat)
    requires 1 <= g <= |s| && LeadingBlanks(s) == g
    requires LeadingDigits(s[g..]) == d && 3 <= d <= 4 && d < |s[g..]| && s[g..][d] == 'p'
    requires LeadingBlanks(s[g..][d + 1..]) == g2 && 1 <= g2 < |s[g..][d + 1..]|
    requires s[g..][d + 1..][g2] == '('
    ensures MatchMarkerBody(s) == Some(JobMarker(s[..g], s[g..][..d], s[g..][d + 1..][..g2]))
  {
  }

  lemma {:induction false} BlanksExact(s: string, n: nat)
    requires n < |s| && !IsRegexSpace(s[n])
    requires forall k :: 0 <= k < n ==> IsRegexSpace(s[k])
    ensures LeadingBlanks(s) == n
  {
    if n > 0 {
      BlanksExact(s[1..], n - 1);
    }
  }

  lemma {:induction false} DigitsExact(s: string, n: nat)
    requires n < |s| && !IsDigit(s[n])
    requires forall k :: 0 <= k < n ==> IsDigit(s[k])
    ensures LeadingDigits(s) == n
  {
    if n > 0 {
      DigitsExact(s[1..], n - 1);
    }
  }

  /** detectJobStartHeight is the number written in a job start line, and a
      positive result comes only from a job start line. */
  lemma DetectJobStartHeightSpec(line: string, m: JobMarker)
    ensures IsJobMarker(line, m) ==> DetectJobStartHeight(line) == DigitsValue(m.digits)
    ensures MatchJobStart(line).None? ==> DetectJobStartHeight(line) == 0
    ensures DetectJobStartHeight(line) != 0 ==>
      MatchJobStart(line).Some? && IsJobMarker(line, MatchJobStart(line).value)
  {
    MatchJobStartSound(line);
    if IsJobMarker(line, m) {
      MatchJobStartComplete(line, m);
      HeightValue(m.digits);
    }
  }
}
