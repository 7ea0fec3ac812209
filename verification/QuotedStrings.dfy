/** Quoted strings: how a string term is printed (src/Term.cc), scanned (the quoted_string automaton of
    src/QlScanner.re2c.cc) and read back (getToken of src/Lexer.cc). */
module QuotedStrings {

  const QUOTE := '"'
  const BACKSLASH := '\\'

  // ---------------------------------------------------------------- printing

  /** escapeQuotes: a backslash in front of every quote. */
  function EscapeQuotes(s: string): string {
    if s == [] then []
    else (if s[0] == QUOTE then [BACKSLASH, QUOTE] else [s[0]]) + EscapeQuotes(s[1..])
  }

  predicate HasQuotes(s: string) { QUOTE in s }

  /** Term::print for a string. */
  function Print(s: string): string {
    if HasQuotes(s) then [QUOTE] + EscapeQuotes(s) + [QUOTE] else [QUOTE] + s + [QUOTE]
  }

  lemma {:induction false} EscapeWithoutQuotes(s: string)
    requires !HasQuotes(s)
    ensures EscapeQuotes(s) == s
  {
    if s != [] {
      EscapeWithoutQuotes(s[1..]);
    }
  }

  lemma {:induction false} EscapeAppends(s: string, c: char)
    ensures EscapeQuotes(s + [c]) == EscapeQuotes(s) + if c == '"' then ['\\', '"'] else [c]
    decreases |s|
  {
    if s != [] {
      EscapeAppends(s[1..], c);
      assert (s + [c])[1..] == s[1..] + [c];
    }
  }

  lemma PrintIsEscaped(s: string)
    ensures Print(s) == ['"'] + EscapeQuotes(s) + ['"']
  {
    if !HasQuotes(s) {
      EscapeWithoutQuotes(s);
    }
  }

  /** What is printed, character by character: between the quotes a quote becomes a backslash and a quote,
      any other character, a backslash included, itself. */
  lemma PrintAppends(s: string, c: char)
    ensures Print([]) == ['"', '"'] && |Print(s)| >= 2
    ensures Print(s + [c]) == Print(s)[..|Print(s)| - 1] + (if c == '"' then ['\\', '"'] else [c]) + ['"']
  {
    PrintIsEscaped([]);
    PrintIsEscaped(s);
    PrintIsEscaped(s + [c]);
    EscapeAppends(s, c);
    var e := EscapeQuotes(s);
    assert (['"'] + e + ['"'])[..|e| + 1] == ['"'] + e;
  }

  // ---------------------------------------------------------------- scanning

  /** Where the automaton stops and the escapes it recorded; it may run off the end of the text. */
  datatype Scanned = Stopped(cursor: nat, quoteEscapes: seq<nat>) | RanOff

  ghost function Escaped(at: nat, rest: Scanned): Scanned {
    if rest.Stopped? then Stopped(rest.cursor, [at] + rest.quoteEscapes) else RanOff
  }

  /** What the automaton does from a position on, one character or escape at a time. */
  ghost function ScanFrom(text: string, at: nat): Scanned
    decreases |text| - at
  {
    if at >= |text| then RanOff
    else if text[at] == QUOTE then Stopped(at + 1, [])
    else if text[at] == BACKSLASH && at + 1 < |text| && text[at + 1] == QUOTE then Escaped(at, ScanFrom(text, at + 2))
    else ScanFrom(text, at + 1)
  }

  /** The escapes recorded so far in front of those still to come. */
  ghost function WithEscapes(escapes: seq<nat>, rest: Scanned): Scanned {
    if rest.Stopped? then Stopped(rest.cursor, escapes + rest.quoteEscapes) else RanOff
  }

  lemma OneMoreEscape(escapes: seq<nat>, at: nat, rest: Scanned)
    ensures WithEscapes(escapes, Escaped(at, rest)) == WithEscapes(escapes + [at], rest)
  {
    if rest.Stopped? {
      assert escapes + ([at] + rest.quoteEscapes) == escapes + [at] + rest.quoteEscapes;
    }
  }

  /** The automaton, started behind the opening quote. */
  method QuotedString(text: string, start: nat) returns (r: Scanned)
    ensures r == ScanFrom(text, start)
  {
    var cursor: nat, escapes: seq<nat> := start, [];
    while cursor < |text|
      invariant ScanFrom(text, start) == WithEscapes(escapes, ScanFrom(text, cursor))
      decreases |text| - cursor
    {
      if text[cursor] == QUOTE {
        return Stopped(cursor + 1, escapes);
      } else if text[cursor] == BACKSLASH {
        cursor := cursor + 1;
        if cursor < |text| && text[cursor] == QUOTE {
          cursor := cursor + 1;
          OneMoreEscape(escapes, cursor - 2, ScanFrom(text, cursor));
          escapes := escapes + [cursor - 2];
        }
      } else {
        cursor := cursor + 1;
        while cursor < |text| && text[cursor] != QUOTE && text[cursor] != BACKSLASH
          invariant cursor <= |text| && ScanFrom(text, start) == WithEscapes(escapes, ScanFrom(text, cursor))
        {
          cursor := cursor + 1;
        }
      }
    }
    return RanOff;
  }

  /** The quote at i is not behind a backslash, counted from position at. */
  ghost predicate ClosesAt(text: string, at: nat, i: nat) {
    at <= i < |text| && text[i] == '"' && !(i > at && text[i - 1] == '\\')
  }

  ghost predicate EscapesAt(text: string, at: nat, e: nat) {
    at <= e && e + 1 < |text| && text[e] == '\\' && text[e + 1] == '"'
  }

  /** Stops behind the first quote that is not behind a backslash, and has recorded, in order, the positions of
      exactly the backslashes before it that are followed by a quote. */
  ghost predicate StopsRightly(text: string, at: nat, r: Scanned) {
    if r.RanOff? then forall i: nat :: !ClosesAt(text, at, i)
    else
      && r.cursor > 0 && ClosesAt(text, at, r.cursor - 1)
      && (forall i: nat :: i < r.cursor - 1 ==> !ClosesAt(text, at, i))
      && (forall i, j :: 0 <= i < j < |r.quoteEscapes| ==> r.quoteEscapes[i] < r.quoteEscapes[j])
      && forall e: nat :: e in r.quoteEscapes <==> e < r.cursor - 1 && EscapesAt(text, at, e)
  }

  /** At an escape or a plain character nothing closes, and behind it the same quotes close. */
  lemma SkipPlain(text: string, at: nat)
    requires at < |text| && text[at] != '"' && !EscapesAt(text, at, at)
    ensures forall i: nat :: ClosesAt(text, at, i) <==> ClosesAt(text, at + 1, i)
    ensures forall e: nat :: EscapesAt(text, at, e) <==> EscapesAt(text, at + 1, e)
  {
  }

  lemma SkipEscape(text: string, at: nat)
    requires EscapesAt(text, at, at)
    ensures forall i: nat :: ClosesAt(text, at, i) <==> ClosesAt(text, at + 2, i)
    ensures forall e: nat :: EscapesAt(text, at, e) <==> e == at || EscapesAt(text, at + 2, e)
  {
  }

  lemma EscapedStops(text: string, at: nat, rest: Scanned)
    requires EscapesAt(text, at, at) && StopsRightly(text, at + 2, rest)
    ensures StopsRightly(text, at, Escaped(at, rest))
  {
    SkipEscape(text, at);
    if rest.Stopped? {
      hide ClosesAt;
      var escapes := [at] + rest.quoteEscapes;
      assert forall e: nat :: e in escapes <==> e == at || e in rest.quoteEscapes;
      forall i, j | 0 <= i < j < |escapes| ensures escapes[i] < escapes[j] {
        assert escapes[j] in rest.quoteEscapes;
      }
    }
  }

  /** What the automaton does with a text, in plain terms. */
  lemma {:induction false} ScanMeans(text: string, at: nat)
    ensures StopsRightly(text, at, ScanFrom(text, at))
    decreases |text| - at
  {
    if at < |text| && text[at] == '"' {
      assert ClosesAt(text, at, at);
    } else if at < |text| && EscapesAt(text, at, at) {
      ScanMeans(text, at + 2);
      SkipEscape(text, at);
      EscapedStops(text, at, ScanFrom(text, at + 2));
    } else if at < |text| {
      ScanMeans(text, at + 1);
      SkipPlain(text, at);
    }
  }

  // ---------------------------------------------------------------- reading the token back

  /** The escapes lie in increasing order within [start, end). */
  ghost predicate EscapesWithin(start: nat, escapes: seq<nat>, end: nat)
    decreases |escapes|
  {
    start <= end && (escapes != [] ==> start <= escapes[0] < end && EscapesWithin(escapes[0] + 1, escapes[1..], end))
  }

  /** The text from start to end without the characters at the escape positions. */
  ghost function Pieces(text: string, start: nat, escapes: seq<nat>, end: nat): string
    requires start <= end <= |text| && EscapesWithin(start, escapes, end)
    decreases |escapes|
  {
    if escapes == [] then text[start..end]
    else text[start..escapes[0]] + Pieces(text, escapes[0] + 1, escapes[1..], end)
  }

  lemma NextPiece(text: string, from: nat, escapes: seq<nat>, i: nat, end: nat)
    requires i < |escapes| && from <= end <= |text| && EscapesWithin(from, escapes[i..], end)
    ensures from <= escapes[i] < end && EscapesWithin(escapes[i] + 1, escapes[i + 1..], end)
    ensures Pieces(text, from, escapes[i..], end)
      == text[from..escapes[i]] + Pieces(text, escapes[i] + 1, escapes[i + 1..], end)
  {
    assert escapes[i..][1..] == escapes[i + 1..] && escapes[i..][0] == escapes[i];
  }

  lemma NoPieces(text: string, from: nat, end: nat)
    requires from <= end <= |text|
    ensures EscapesWithin(from, [], end) && Pieces(text, from, [], end) == text[from..end]
  {
  }

  /** getToken for a quoted string whose opening quote is at start. */
  method GetToken(text: string, start: nat, cursor: nat, quoteEscapes: seq<nat>) returns (token: string)
    requires start + 2 <= cursor <= |text| && EscapesWithin(start + 1, quoteEscapes, cursor - 1)
    ensures token == Pieces(text, start + 1, quoteEscapes, cursor - 1)
  {
    hide Pieces, EscapesWithin;
    NoPieces(text, start + 1, cursor - 1);
    if quoteEscapes == [] {
      return text[start + 1..start + 1 + (cursor - start - 2)];
    }
    token := "";
    var from := start + 1;
    for i := 0 to |quoteEscapes|
      invariant start + 1 <= from <= cursor - 1 && EscapesWithin(from, quoteEscapes[i..], cursor - 1)
      invariant Pieces(text, start + 1, quoteEscapes, cursor - 1)
        == token + Pieces(text, from, quoteEscapes[i..], cursor - 1)
    {
      NextPiece(text, from, quoteEscapes, i, cursor - 1);
      token := token + text[from..quoteEscapes[i]];
      from := quoteEscapes[i] + 1;
    }
    NoPieces(text, from, cursor - 1);
    assert quoteEscapes[|quoteEscapes|..] == [];
    token := token + text[from..cursor - 1];
  }

  // ---------------------------------------------------------------- the round trip

  ghost predicate EndsInBackslash(s: string) { s != [] && s[|s| - 1] == BACKSLASH }

  /** Where escapeQuotes puts its backslashes, for a string printed from position base on. */
  ghost function EscapePositions(s: string, base: nat): seq<nat> {
    if s == [] then []
    else if s[0] == QUOTE then [base] + EscapePositions(s[1..], base + 2)
    else EscapePositions(s[1..], base + 1)
  }

  ghost predicate PrintedAt(text: string, base: nat, s: string) {
    base + |EscapeQuotes(s)| < |text|
    && text[base..base + |EscapeQuotes(s)|] == EscapeQuotes(s) && text[base + |EscapeQuotes(s)|] == QUOTE
  }

  /** The string behind the first character is printed behind its print. */
  lemma PrintedTail(text: string, base: nat, s: string)
    requires PrintedAt(text, base, s) && s != []
    ensures s[0] == QUOTE ==>
      base + 1 < |text| && text[base] == BACKSLASH && text[base + 1] == QUOTE && PrintedAt(text, base + 2, s[1..])
    ensures s[0] != QUOTE ==> text[base] == s[0] && PrintedAt(text, base + 1, s[1..])
  {
    var e, n := EscapeQuotes(s), if s[0] == QUOTE then 2 else 1;
    var span := text[base..base + |e|];
    assert e[n..] == EscapeQuotes(s[1..]);
    assert text[base + n..base + |e|] == span[n..];
    assert span[0] == text[base] && (n == 2 ==> span[1] == text[base + 1]);
  }

  lemma {:induction false} ScanMovesOn(text: string, at: nat)
    ensures ScanFrom(text, at).Stopped? ==> ScanFrom(text, at).cursor > at
    decreases |text| - at
  {
    if at < |text| {
      ScanMovesOn(text, at + 1);
      ScanMovesOn(text, at + 2);
    }
  }

  /** The automaton stops exactly at the closing quote and records exactly the escapes, unless the string
      ends in a backslash; then it takes the closing quote for an escaped one. */
  lemma {:induction false} ScanPrinted(text: string, base: nat, s: string)
    requires PrintedAt(text, base, s)
    ensures !EndsInBackslash(s) ==>
      ScanFrom(text, base) == Stopped(base + |EscapeQuotes(s)| + 1, EscapePositions(s, base))
    ensures EndsInBackslash(s) ==> ScanFrom(text, base).Stopped? ==>
      ScanFrom(text, base).cursor > base + |EscapeQuotes(s)| + 1
    decreases |s|
  {
    if s != [] {
      PrintedTail(text, base, s);
      var n := if s[0] == QUOTE then 2 else 1;
      ScanPrinted(text, base + n, s[1..]);
      assert |s| > 1 ==> s[1..][|s| - 2] == s[|s| - 1];
      if s[0] == BACKSLASH {
        if |s| > 1 {
          PrintedTail(text, base + 1, s[1..]);
        } else {
          ScanMovesOn(text, base + 2);
        }
      }
    }
  }

  lemma {:induction false} PiecesArePrinted(text: string, start: nat, base: nat, s: string)
    requires PrintedAt(text, base, s) && start <= base
    ensures EscapesWithin(start, EscapePositions(s, base), base + |EscapeQuotes(s)|)
    ensures Pieces(text, start, EscapePositions(s, base), base + |EscapeQuotes(s)|) == text[start..base] + s
    decreases |s|
  {
    if s != [] {
      PrintedTail(text, base, s);
      if s[0] == QUOTE {
        PiecesArePrinted(text, base + 1, base + 2, s[1..]);
        assert EscapePositions(s, base)[1..] == EscapePositions(s[1..], base + 2);
        assert text[base + 1..base + 2] == [QUOTE];
      } else {
        PiecesArePrinted(text, start, base + 1, s[1..]);
        assert text[start..base + 1] == text[start..base] + [s[0]];
      }
      assert s == [s[0]] + s[1..];
    }
  }

  lemma EscapesLater(from: nat, start: nat, escapes: seq<nat>, end: nat)
    requires from <= start && EscapesWithin(start, escapes, end)
    ensures EscapesWithin(from, escapes, end)
  {
  }

  /** What the automaton records lies in order in front of the quote at which it stops. */
  lemma {:induction false} ScanEscapes(text: string, at: nat)
    requires ScanFrom(text, at).Stopped?
    ensures var r := ScanFrom(text, at); at < r.cursor <= |text| && EscapesWithin(at, r.quoteEscapes, r.cursor - 1)
    decreases |text| - at
  {
    if text[at] == BACKSLASH && at + 1 < |text| && text[at + 1] == QUOTE {
      ScanEscapes(text, at + 2);
      var rest := ScanFrom(text, at + 2);
      assert ([at] + rest.quoteEscapes)[1..] == rest.quoteEscapes;
      EscapesLater(at + 1, at + 2, rest.quoteEscapes, rest.cursor - 1);
    } else if text[at] != QUOTE {
      ScanEscapes(text, at + 1);
      EscapesLater(at, at + 1, ScanFrom(text, at + 1).quoteEscapes, ScanFrom(text, at + 1).cursor - 1);
    }
  }

  /** The first character is read back when the escapes lie behind it. */
  lemma FirstPiece(text: string, from: nat, escapes: seq<nat>, end: nat)
    requires from < end <= |text| && EscapesWithin(from + 1, escapes, end)
    ensures EscapesWithin(from, escapes, end)
    ensures var p := Pieces(text, from, escapes, end); p != [] && p[0] == text[from]
  {
  }

  /** Character k of the token that starts at start is a quote. */
  ghost predicate ReadsQuote(text: string, start: nat, r: Scanned, k: int) {
    && r.Stopped? && 1 <= r.cursor <= |text| && EscapesWithin(start, r.quoteEscapes, r.cursor - 1)
    && var p := Pieces(text, start, r.quoteEscapes, r.cursor - 1); 0 <= k < |p| && p[k] == QUOTE
  }

  lemma ReadsQuoteBehindEscape(text: string, start: nat, base: nat, rest: Scanned, k: int)
    requires start <= base && ReadsQuote(text, base + 1, rest, k)
    ensures ReadsQuote(text, start, Escaped(base, rest), base - start + k)
  {
    assert Escaped(base, rest).quoteEscapes[1..] == rest.quoteEscapes;
  }

  /** An escaped quote is read as a quote. */
  lemma ReadsEscapedQuote(text: string, base: nat)
    requires base + 1 < |text| && text[base + 1] == QUOTE && ScanFrom(text, base + 2).Stopped?
    ensures ReadsQuote(text, base + 1, ScanFrom(text, base + 2), 0)
  {
    var rest := ScanFrom(text, base + 2);
    ScanEscapes(text, base + 2);
    FirstPiece(text, base + 1, rest.quoteEscapes, rest.cursor - 1);
  }

  lemma PrintedAtEnd(text: string, base: nat)
    requires PrintedAt(text, base, [])
    ensures base < |text| && text[base] == QUOTE
  {
  }

  /** A string that ends in a backslash is read back with a quote in its place. */
  lemma {:induction false} BackslashIsLost(text: string, start: nat, base: nat, s: string)
    requires PrintedAt(text, base, s) && start <= base && EndsInBackslash(s) && ScanFrom(text, base).Stopped?
    ensures ReadsQuote(text, start, ScanFrom(text, base), base - start + |s| - 1)
    decreases |s|
  {
    hide ReadsQuote, PrintedAt;
    PrintedTail(text, base, s);
    assert |s| > 1 ==> s[1..][|s| - 2] == s[|s| - 1];
    if s[0] == QUOTE {
      BackslashIsLost(text, base + 1, base + 2, s[1..]);
      ReadsQuoteBehindEscape(text, start, base, ScanFrom(text, base + 2), |s| - 1);
    } else if |s| > 1 {
      PrintedTail(text, base + 1, s[1..]);
      BackslashIsLost(text, start, base + 1, s[1..]);
    } else {
      PrintedAtEnd(text, base + 1);
      ReadsEscapedQuote(text, base);
      ReadsQuoteBehindEscape(text, start, base, ScanFrom(text, base + 2), 0);
    }
  }

  lemma BetweenQuotes(e: string, rest: string)
    ensures var text := [QUOTE] + e + [QUOTE] + rest;
            |text| > 1 + |e| && text[1..1 + |e|] == e && text[1 + |e|] == QUOTE
  {
  }

  lemma PrintIsPrinted(s: string, rest: string)
    ensures PrintedAt(Print(s) + rest, 1, s) && |Print(s)| == |EscapeQuotes(s)| + 2
  {
    hide EscapeQuotes;
    if !HasQuotes(s) {
      EscapeWithoutQuotes(s);
    }
    assert Print(s) == [QUOTE] + EscapeQuotes(s) + [QUOTE];
    BetweenQuotes(EscapeQuotes(s), rest);
  }

  /** Printing a string, scanning it, whatever follows it, and reading the token back gives the string,
      exactly if the string does not end in a backslash. */
  lemma RoundTrip(s: string, rest: string)
    ensures var text, end, r := Print(s) + rest, |Print(s)|, ScanFrom(Print(s) + rest, 1);
            && ((r.Stopped? && r.cursor == end) <==> !EndsInBackslash(s))
            && (r.Stopped? ==>
                  && 1 < r.cursor <= |text| && EscapesWithin(1, r.quoteEscapes, r.cursor - 1)
                  && (Pieces(text, 1, r.quoteEscapes, r.cursor - 1) == s <==> !EndsInBackslash(s)))
  {
    var text := Print(s) + rest;
    PrintIsPrinted(s, rest);
    ScanPrinted(text, 1, s);
    if !EndsInBackslash(s) {
      PiecesArePrinted(text, 1, 1, s);
    } else if ScanFrom(text, 1).Stopped? {
      BackslashIsLost(text, 1, 1, s);
    }
  }

  /** A single backslash, with a second printed string behind it, is read back as a quote and a space. */
  lemma LoneBackslash()
    ensures Print(['\\']) + [' '] + Print([]) == ['"', '\\', '"', ' ', '"', '"']
    ensures var text := ['"', '\\', '"', ' ', '"', '"'];
            ScanFrom(text, 1) == Stopped(5, [1]) && Pieces(text, 1, [1], 4) == ['"', ' ']
  {
    var text := ['"', '\\', '"', ' ', '"', '"'];
    assert ScanFrom(text, 3) == ScanFrom(text, 4) == Stopped(5, []);
    NoPieces(text, 2, 4);
    assert text[1..1] == [] && text[2..4] == ['"', ' '];
  }

  /** The three steps one after the other. */
  method PrintScanRead(s: string, rest: string) returns (stopped: bool, token: string)
    ensures stopped && token == s <==> !EndsInBackslash(s)
  {
    var text := Print(s) + rest;
    RoundTrip(s, rest);
    var r := QuotedString(text, 1);
    if r.RanOff? {
      return false, "";
    }
    stopped := true;
    token := GetToken(text, 0, r.cursor, r.quoteEscapes);
  }
}
