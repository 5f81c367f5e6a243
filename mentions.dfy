/** The game-result mention in a message's text (wordle_stats.py, lines 46-50):
    the left-most match of `Wordle ([\d,]+) ([X\d])/6`, and the puzzle number read from its first group. */
module Mentions {
  import opened Wrappers
  import opened Lexical

  /** What the second group can hold: the failure marker or any single digit. */
  type AttemptToken = c: char | c == 'X' || IsDigit(c) witness 'X'

  /** The two groups of a match. */
  datatype Mention = Mention(puzzleToken: string, attempts: AttemptToken)

  predicate IsPuzzleChar(c: char) {
    IsDigit(c) || c == ','
  }

  predicate AllPuzzleChars(s: string) {
    forall i :: 0 <= i < |s| ==> IsPuzzleChar(s[i])
  }

  /** Number of `[\d,]` characters at the start of s. */
  function SpanPuzzle(s: string): (k: nat)
    ensures k <= |s|
    ensures forall i :: 0 <= i < k ==> IsPuzzleChar(s[i])
    ensures k < |s| ==> !IsPuzzleChar(s[k])
  {
    if s == [] || !IsPuzzleChar(s[0]) then 0 else 1 + SpanPuzzle(s[1..])
  }

  const Keyword: string := "Wordle "

  /** The match of the pattern that starts at the very beginning of s, if any. `[\d,]+` is followed
      by a blank, which it excludes, so its greedy match is the maximal run. */
  function MentionAt(s: string): (o: Option<Mention>)
  {
    if |s| < |Keyword| || s[..|Keyword|] != Keyword then None
    else
      var rest := s[|Keyword|..];
      var k := SpanPuzzle(rest);
      if k == 0 || |rest| < k + 4 then None
      else if rest[k] == ' ' && (rest[k + 1] == 'X' || IsDigit(rest[k + 1])) && rest[k + 2] == '/' && rest[k + 3] == '6'
      then Some(Mention(rest[..k], rest[k + 1]))
      else None
  }

  /** The text of a mention with the given groups. */
  function Spelled(m: Mention): string {
    Keyword + m.puzzleToken + [' ', m.attempts, '/', '6']
  }

  /** s begins with the spelling of m, and m's token is a possible first group. */
  predicate StartsWithMention(s: string, m: Mention) {
    m.puzzleToken != [] && AllPuzzleChars(m.puzzleToken)
    && |Spelled(m)| <= |s| && s[..|Spelled(m)|] == Spelled(m)
  }

  lemma SpanPuzzleOfSpelling(tok: string, tail: string)
    requires AllPuzzleChars(tok) && tail != [] && tail[0] == ' '
    ensures SpanPuzzle(tok + tail) == |tok|
  {
    var s := tok + tail;
    assert forall i :: 0 <= i < |tok| ==> s[i] == tok[i];
    assert s[|tok|] == ' ';
  }

  /** A match found at the start of s spells its own groups there. */
  lemma MentionAtSound(s: string, m: Mention)
    requires MentionAt(s) == Some(m)
    ensures StartsWithMention(s, m)
  {
    var rest := s[|Keyword|..];
    var k := SpanPuzzle(rest);
    assert m.puzzleToken == rest[..k];
    assert s[..|Spelled(m)|] == Spelled(m);
  }

  /** When s starts with the spelling of a mention, the match at its start is that mention. */
  lemma MentionAtComplete(s: string, m: Mention)
    requires StartsWithMention(s, m)
    ensures MentionAt(s) == Some(m)
  {
    var n := |Keyword|;
    var tok := m.puzzleToken;
    var sp := Spelled(m);
    assert s[..n] == sp[..n] == Keyword;
    var rest := s[n..];
    assert rest[..|tok| + 4] == tok + [' ', m.attempts, '/', '6'];
    assert rest == tok + rest[|tok|..];
    SpanPuzzleOfSpelling(tok, rest[|tok|..]);
    assert rest[..|tok|] == tok;
  }

  /** The match at the start of s is found exactly when s starts with a mention, and it yields that
      mention's groups. */
  lemma MentionAtCharacterised(s: string, m: Mention)
    ensures MentionAt(s) == Some(m) <==> StartsWithMention(s, m)
  {
    if MentionAt(s) == Some(m) {
      MentionAtSound(s, m);
    }
    if StartsWithMention(s, m) {
      MentionAtComplete(s, m);
    }
  }

  /** `re.search`: the match at the left-most position where one starts. */
  function FindMention(text: string): (o: Option<Mention>)
    ensures o.Some? ==> o.value.puzzleToken != [] && AllPuzzleChars(o.value.puzzleToken)
    ensures o.Some? ==> |Spelled(o.value)| <= |text|
    decreases |text|
  {
    if text == [] then None
    else match MentionAt(text)
      case Some(m) => (MentionAtCharacterised(text, m); Some(m))
      case None => FindMention(text[1..])
  }

  /** There is no match anywhere in text exactly when the search finds nothing. */
  lemma {:induction false} FindMentionNone(text: string)
    ensures FindMention(text).None? <==> forall i :: 0 <= i < |text| ==> MentionAt(text[i..]).None?
  {
    if text != [] {
      FindMentionNone(text[1..]);
      assert text[0..] == text;
      forall i | 1 <= i < |text| ensures text[1..][i - 1..] == text[i..] { }
    }
  }

  /** When the left-most match starts at i, the search returns that match. */
  lemma {:induction false} FindMentionLeftmost(text: string, i: nat)
    requires i < |text| && MentionAt(text[i..]).Some?
    requires forall j :: 0 <= j < i ==> MentionAt(text[j..]).None?
    ensures FindMention(text) == MentionAt(text[i..])
  {
    assert text[0..] == text;
    if i > 0 {
      forall j | 0 <= j < i - 1 ensures MentionAt(text[1..][j..]).None? {
        assert text[1..][j..] == text[j + 1..];
      }
      assert text[1..][i - 1..] == text[i..];
      FindMentionLeftmost(text[1..], i - 1);
    }
  }

  /** The comma-free digits of a token (`str.replace(",", "")`). */
  function RemoveCommas(tok: string): (d: string)
    ensures |d| <= |tok|
    ensures forall i :: 0 <= i < |d| ==> d[i] != ','
    ensures AllPuzzleChars(tok) ==> AllDigits(d)
  {
    if tok == [] then [] else (if tok[0] == ',' then [] else [tok[0]]) + RemoveCommas(tok[1..])
  }

  lemma {:induction false} RemoveCommasEmpty(tok: string)
    ensures RemoveCommas(tok) == [] <==> forall i :: 0 <= i < |tok| ==> tok[i] == ','
  {
    if tok != [] {
      RemoveCommasEmpty(tok[1..]);
      assert forall i :: 1 <= i < |tok| ==> tok[i] == tok[1..][i - 1];
    }
  }

  lemma {:induction false} RemoveCommasAppend(x: string, y: string)
    ensures RemoveCommas(x + y) == RemoveCommas(x) + RemoveCommas(y)
  {
    if x == [] {
      assert x + y == y;
    } else {
      assert (x + y)[1..] == x[1..] + y;
      RemoveCommasAppend(x[1..], y);
    }
  }

  /** The most digits `int()` converts from a decimal string (`sys.int_info.default_max_str_digits`,
      enforced by CPython from 3.11 on). */
  const MaxIntDigits: nat := 4300

  /** Why `int()` rejects a comma-free token. */
  datatype NumberError = NoDigits | TooManyDigits(count: nat)

  /** `int(token.replace(",", ""))`: it raises on the empty string left by a token of commas only,
      and on a string of more than `MaxIntDigits` digits. */
  function ParsePuzzle(tok: string): (r: Result<nat, NumberError>)
    requires AllPuzzleChars(tok)
    ensures r == Err(NoDigits) <==> forall i :: 0 <= i < |tok| ==> tok[i] == ','
    ensures r.Err? <==> (forall i :: 0 <= i < |tok| ==> tok[i] == ',') || |RemoveCommas(tok)| > MaxIntDigits
    ensures r.Err? && r.error.TooManyDigits? ==> r.error.count == |RemoveCommas(tok)|
  {
    RemoveCommasEmpty(tok);
    var digits := RemoveCommas(tok);
    if digits == [] then Err(NoDigits)
    else if |digits| > MaxIntDigits then Err(TooManyDigits(|digits|))
    else Ok(DecimalValue(digits))
  }

  /** A thousands separator anywhere in the token does not change the puzzle number. */
  lemma SeparatorIgnored(x: string, y: string)
    requires AllPuzzleChars(x) && AllPuzzleChars(y)
    ensures AllPuzzleChars(x + "," + y) && AllPuzzleChars(x + y)
    ensures ParsePuzzle(x + "," + y) == ParsePuzzle(x + y)
  {
    assert x + "," + y == x + ("," + y);
    RemoveCommasAppend(x, "," + y);
    assert ("," + y)[0] == ',' && ("," + y)[1..] == y;
    assert RemoveCommas("," + y) == RemoveCommas(y);
    RemoveCommasAppend(x, y);
    assert RemoveCommas(x + "," + y) == RemoveCommas(x + y);
  }

  lemma {:induction false} RemoveCommasOfDigits(d: string)
    requires AllDigits(d)
    ensures RemoveCommas(d) == d
  {
    if d != [] {
      RemoveCommasOfDigits(d[1..]);
    }
  }

  /** A plain base-10 rendering of n reads back as n, unless it is too long for `int()`. */
  lemma PuzzleRoundTrip(n: nat)
    ensures AllPuzzleChars(DecimalDigits(n))
    ensures ParsePuzzle(DecimalDigits(n)) ==
      if |DecimalDigits(n)| <= MaxIntDigits then Ok(n) else Err(TooManyDigits(|DecimalDigits(n)|))
  {
    RemoveCommasOfDigits(DecimalDigits(n));
    DecimalRoundTrip(n);
  }

  lemma PlainTokenValue()
    ensures AllDigits("1292") && DecimalValue("1292") == 1292
  {
    DecimalAppend("", '1');
    DecimalAppend("1", '2');
    DecimalAppend("12", '9');
    DecimalAppend("129", '2');
    assert "" + ['1'] == "1" && "1" + ['2'] == "12" && "12" + ['9'] == "129" && "129" + ['2'] == "1292";
  }

  /** "1,292" and "1292" name the same puzzle. */
  lemma GroupedPuzzleExample()
    ensures ParsePuzzle("1,292") == ParsePuzzle("1292") == Ok(1292)
  {
    SeparatorIgnored("1", "292");
    assert "1" + "," + "292" == "1,292" && "1" + "292" == "1292";
    PlainTokenValue();
    RemoveCommasOfDigits("1292");
  }

  /** A token of 4301 digits is one digit too long: `int()` raises instead of returning a number. */
  lemma OverlongTokenRejected()
    ensures AllPuzzleChars(seq(MaxIntDigits + 1, i => '1'))
    ensures ParsePuzzle(seq(MaxIntDigits + 1, i => '1')) == Err(TooManyDigits(MaxIntDigits + 1))
  {
    var tok := seq(MaxIntDigits + 1, i => '1');
    assert AllDigits(tok);
    RemoveCommasOfDigits(tok);
  }
}
