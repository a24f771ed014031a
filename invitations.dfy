/**
 * The invitation code generator (src/pages/InvitationsPage.tsx): the count
 * input and its range guard, the generated code list with its "copied"
 * highlight, and the text that "copy all" puts on the clipboard.
 */
module InvitationCodes {
  import opened Optional

  // ------------------------------------------------------------------
  // Count input and generate guard
  // ------------------------------------------------------------------

  const InitialCount := 10
  const MinCount := 1
  const MaxCount := 100

  /** The range `generate` accepts; outside it the handler returns without calling the backend. */
  predicate CountAccepted(count: int)
  {
    MinCount <= count <= MaxCount
  }

  function Min(a: int, b: int): int { if a <= b then a else b }
  function Max(a: int, b: int): int { if a >= b then a else b }

  /** `Math.min(100, Math.max(1, n))`: the value the count input stores for a typed number `n`. */
  function ClampCount(input: int): (c: int)
    ensures CountAccepted(c)
    ensures CountAccepted(input) ==> c == input
    ensures input < MinCount ==> c == MinCount
    ensures input > MaxCount ==> c == MaxCount
  {
    Min(MaxCount, Max(MinCount, input))
  }

  /** Clamping a clamped value changes nothing. */
  lemma ClampCountIdempotent(input: int)
    ensures ClampCount(ClampCount(input)) == ClampCount(input)
  {
  }

  datatype GenerateCall = GenerateCall(count: int, notes: string)

  /** `generate`: the backend call it makes, none when the count is out of range. */
  function GenerateRequest(count: int, notes: string): (call: Option<GenerateCall>)
    ensures call.Some? <==> 1 <= count <= 100
    ensures call.Some? ==> call.value.count == count && call.value.notes == notes
  {
    if count < 1 || count > 100 then None else Some(GenerateCall(count, notes))
  }

  // ------------------------------------------------------------------
  // Page state
  // ------------------------------------------------------------------

  /** The page's state: the count and notes inputs, the last generated codes, and the highlighted tile (-1 for none). */
  datatype GeneratorState = GeneratorState(count: int, notes: string, codes: seq<string>, copied: int)

  const Initial := GeneratorState(InitialCount, "", [], -1)

  /** Every count the page can hold passes the generate guard. */
  predicate Valid(s: GeneratorState)
  {
    CountAccepted(s.count)
  }

  /** Typing a number into the count input. */
  function SetCount(s: GeneratorState, input: int): (t: GeneratorState)
    ensures Valid(t)
    ensures t.count == ClampCount(input)
    ensures t.notes == s.notes && t.codes == s.codes && t.copied == s.copied
  {
    s.(count := ClampCount(input))
  }

  /** Typing into the notes input. */
  function SetNotes(s: GeneratorState, notes: string): (t: GeneratorState)
    ensures Valid(s) ==> Valid(t)
    ensures t.notes == notes && t.count == s.count && t.codes == s.codes && t.copied == s.copied
  {
    s.(notes := notes)
  }

  /** A successful response replaces the code list; a response without codes empties it. */
  function ReceiveCodes(s: GeneratorState, response: Option<seq<string>>): (t: GeneratorState)
    ensures Valid(s) ==> Valid(t)
    ensures response.Some? ==> t.codes == response.value
    ensures response.None? ==> t.codes == []
    ensures t.count == s.count && t.notes == s.notes && t.copied == s.copied
  {
    s.(codes := if response.Some? then response.value else [])
  }

  /** Clicking the tile at `idx` (`copyCode`): that tile becomes the highlighted one. */
  function CopyCode(s: GeneratorState, idx: int): (t: GeneratorState)
    ensures Valid(s) ==> Valid(t)
    ensures t.copied == idx
    ensures t.count == s.count && t.notes == s.notes && t.codes == s.codes
  {
    s.(copied := idx)
  }

  /** The delayed reset after a copy: no tile is highlighted. */
  function CopyExpired(s: GeneratorState): (t: GeneratorState)
    ensures Valid(s) ==> Valid(t)
    ensures t.copied == -1
    ensures t.count == s.count && t.notes == s.notes && t.codes == s.codes
  {
    s.(copied := -1)
  }

  /** The page starts valid, and a valid page always reaches the backend when "generate" is pressed. */
  lemma InitialIsValid()
    ensures Valid(Initial)
    ensures GenerateRequest(Initial.count, Initial.notes) == Some(GenerateCall(10, ""))
  {
  }

  lemma ValidStateIsNeverRefused(s: GeneratorState)
    requires Valid(s)
    ensures GenerateRequest(s.count, s.notes) == Some(GenerateCall(s.count, s.notes))
  {
  }

  // ------------------------------------------------------------------
  // Results
  // ------------------------------------------------------------------

  /** The number of characters in all the codes together. */
  function TotalLength(codes: seq<string>): nat
  {
    if codes == [] then 0 else |codes[0]| + TotalLength(codes[1..])
  }

  /**
   * `codes.join('\n')`, the "copy all" text: every character of every code
   * and exactly one separator between neighbouring codes.
   */
  function JoinLines(codes: seq<string>): (text: string)
    ensures |codes| > 0 ==> |text| == TotalLength(codes) + |codes| - 1
    ensures codes == [] ==> text == ""
    ensures |codes| > 0 ==> |codes[0]| <= |text| && text[..|codes[0]|] == codes[0]
    ensures |codes| > 1 ==> text[|codes[0]|] == '\n' && text[|codes[0]| + 1..] == JoinLines(codes[1..])
  {
    if codes == [] then ""
    else if |codes| == 1 then codes[0]
    else codes[0] + "\n" + JoinLines(codes[1..])
  }

  /** `s.split('\n')`: the pieces between newlines, one more than there are newlines. */
  function SplitLines(s: string): (lines: seq<string>)
    ensures |lines| >= 1
    ensures forall i :: 0 <= i < |lines| ==> '\n' !in lines[i]
  {
    if s == [] then [""]
    else
      var rest := SplitLines(s[1..]);
      if s[0] == '\n' then [""] + rest
      else [[s[0]] + rest[0]] + rest[1..]
  }

  datatype CodeTile = CodeTile(code: string, highlighted: bool)

  /** The results card: a placeholder, or the tiles with the "copy all" button and its clipboard text. */
  datatype ResultsView = Placeholder | CodeList(tiles: seq<CodeTile>, copyAllText: string)

  /**
   * The results card. With no codes only the placeholder is shown (and no
   * "copy all" button); otherwise one tile per code in order, only the copied
   * one highlighted, and "copy all" copies the codes one per line.
   */
  function Results(s: GeneratorState): (v: ResultsView)
    ensures v.CodeList? <==> |s.codes| > 0
    ensures v.CodeList? ==> |v.tiles| == |s.codes|
    ensures v.CodeList? ==> forall i :: 0 <= i < |v.tiles| ==> v.tiles[i].code == s.codes[i]
    ensures v.CodeList? ==> forall i :: 0 <= i < |v.tiles| ==> (v.tiles[i].highlighted <==> s.copied == i)
    ensures v.CodeList? ==> v.copyAllText == JoinLines(s.codes)
  {
    if |s.codes| > 0 then
      CodeList(seq(|s.codes|, i requires 0 <= i < |s.codes| => CodeTile(s.codes[i], s.copied == i)),
               JoinLines(s.codes))
    else Placeholder
  }

  /** After a copy only the clicked tile is highlighted, and after the reset none is. */
  lemma CopyHighlightsOnlyThatTile(s: GeneratorState, idx: int)
    requires 0 <= idx < |s.codes|
    ensures Results(CopyCode(s, idx)).CodeList?
    ensures forall i :: 0 <= i < |s.codes| ==> (Results(CopyCode(s, idx)).tiles[i].highlighted <==> i == idx)
    ensures forall i :: 0 <= i < |s.codes| ==> !Results(CopyExpired(CopyCode(s, idx))).tiles[i].highlighted
  {
  }

  /** Splitting a line-free prefix followed by `t` glues the prefix onto the first line of `t`. */
  lemma {:induction false} SplitLinesPrefix(c: string, t: string)
    requires '\n' !in c
    ensures SplitLines(c + t) == [c + SplitLines(t)[0]] + SplitLines(t)[1..]
  {
    if c == [] {
      assert c + t == t;
      assert c + SplitLines(t)[0] == SplitLines(t)[0];
      assert SplitLines(t) == [SplitLines(t)[0]] + SplitLines(t)[1..];
    } else {
      assert (c + t)[0] == c[0];
      assert (c + t)[1..] == c[1..] + t;
      SplitLinesPrefix(c[1..], t);
      assert [c[0]] + (c[1..] + SplitLines(t)[0]) == c + SplitLines(t)[0];
    }
  }

  /**
   * The "copy all" text splits back into the codes, provided there is at
   * least one and none contains a newline.
   */
  lemma {:induction false} SplitJoinedCodes(codes: seq<string>)
    requires |codes| > 0
    requires forall i :: 0 <= i < |codes| ==> '\n' !in codes[i]
    ensures SplitLines(JoinLines(codes)) == codes
  {
    if |codes| == 1 {
      SplitLinesPrefix(codes[0], "");
      assert codes[0] + "" == codes[0];
    } else {
      var rest := JoinLines(codes[1..]);
      SplitJoinedCodes(codes[1..]);
      assert ("\n" + rest)[0] == '\n' && ("\n" + rest)[1..] == rest;
      assert SplitLines("\n" + rest) == [""] + codes[1..];
      assert codes[0] + "\n" + rest == codes[0] + ("\n" + rest);
      SplitLinesPrefix(codes[0], "\n" + rest);
      assert codes[0] + SplitLines("\n" + rest)[0] == codes[0];
      assert SplitLines("\n" + rest)[1..] == codes[1..];
      assert codes == [codes[0]] + codes[1..];
    }
  }

  /** Joining puts the head line in front of the join of the rest. */
  lemma JoinLinesCons(x: string, rest: seq<string>)
    requires |rest| > 0
    ensures JoinLines([x] + rest) == x + "\n" + JoinLines(rest)
  {
    assert ([x] + rest)[1..] == rest;
  }

  /** Gluing a character onto the only piece puts it in front of the joined text. */
  lemma JoinLinesGlueSingle(a: char, piece: string)
    ensures JoinLines([[a] + piece]) == [a] + JoinLines([piece])
  {
  }

  lemma AppendAssoc(x: string, y: string, z: string)
    ensures (x + y) + z == x + (y + z)
  {
  }

  /** Gluing a character onto the first of several pieces puts it in front of the joined text. */
  lemma JoinLinesGlueMany(a: char, first: string, more: seq<string>)
    requires |more| > 0
    ensures JoinLines([[a] + first] + more) == [a] + JoinLines([first] + more)
  {
    JoinLinesCons(first, more);
    JoinLinesCons([a] + first, more);
    AppendAssoc([a], first, "\n" + JoinLines(more));
  }

  /** One character in front of a text whose pieces re-join to it: the longer text re-joins too. */
  lemma JoinSplitLinesStep(c: char, t: string)
    requires JoinLines(SplitLines(t)) == t
    ensures JoinLines(SplitLines([c] + t)) == [c] + t
  {
    var rest := SplitLines(t);
    assert ([c] + t)[0] == c && ([c] + t)[1..] == t;
    if c == '\n' {
      JoinLinesCons("", rest);
    } else if |rest| == 1 {
      JoinLinesGlueSingle(c, rest[0]);
      assert rest == [rest[0]];
    } else {
      JoinLinesGlueMany(c, rest[0], rest[1..]);
      assert rest == [rest[0]] + rest[1..];
    }
  }

  /** Joining the pieces of any text with newlines gives the text back. */
  lemma {:induction false} JoinSplitLines(s: string)
    ensures JoinLines(SplitLines(s)) == s
  {
    if s != [] {
      JoinSplitLines(s[1..]);
      JoinSplitLinesStep(s[0], s[1..]);
      assert s == [s[0]] + s[1..];
    }
  }
}
