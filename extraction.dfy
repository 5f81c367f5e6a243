/** Record extraction (wordle_stats.py, lines 17-72): each export file is a sequence of messages; a
    one-slot "current player" is reset at the start of every file and updated by every message that
    carries an author label; a message whose text holds a mention, while a player is known and the
    title starts with a date, yields one record. Two situations raise and end the whole run. */
module Extraction {
  import opened Wrappers
  import opened Names
  import opened Mentions
  import opened Dates

  /** What the extractor reads of one `div.message`: the text of its `from_name` div, the text of its
      `text` div and the `title` attribute of its `details` div, each absent when the element is. */
  datatype Message = Message(author: Option<string>, text: Option<string>, title: Option<string>)

  datatype Record = Record(player: string, puzzle: nat, attempts: AttemptToken, date: Date, year: int)

  /** The two exceptions the loop can raise: `int("")` on a token of commas only, and the
      `datetime` constructor on a prefix that names no real day. */
  datatype ParseError =
    | EmptyPuzzleNumber(token: string)
    | PuzzleNumberTooLong(token: string)
    | InvalidDate(fields: DateFields)

  /** What every record satisfies. */
  predicate WellFormed(r: Record) {
    r.player != [] && IsValidDate(r.date.year, r.date.month, r.date.day) && r.year == r.date.year
  }

  /** Python truthiness of `current_player`: neither None nor the empty string. */
  predicate Known(player: Option<string>) {
    player.Some? && player.value != []
  }

  /** The current player once message m is seen. */
  function NextPlayer(current: Option<string>, m: Message): Option<string>
  {
    match m.author
    case Some(raw) => Some(NormaliseName(raw))
    case None => current
  }

  /** What message m contributes, given the player in effect for it (already updated by m's own label). */
  function Emit(player: Option<string>, m: Message): (r: Result<Option<Record>, ParseError>)
    ensures r.Ok? && r.value.Some? ==> WellFormed(r.value.value) && player == Some(r.value.value.player)
  {
    if m.text.None? then Ok(None)
    else match FindMention(m.text.value)
      case None => Ok(None)
      case Some(mention) =>
        if !Known(player) then Ok(None)
        else match ParsePuzzle(mention.puzzleToken)
          case Err(NoDigits) => Err(EmptyPuzzleNumber(mention.puzzleToken))
          case Err(TooManyDigits(_)) => Err(PuzzleNumberTooLong(mention.puzzleToken))
          case Ok(puzzle) =>
            if m.title.None? || m.title.value == [] then Ok(None)
            else match DatePrefix(m.title.value)
              case None => Ok(None)
              case Some(fields) =>
                match MakeDate(fields)
                case None => Err(InvalidDate(fields))
                case Some(date) => Ok(Some(Record(player.value, puzzle, mention.attempts, date, date.year)))
  }

  /** The mention found in m's text, if m has text and the text holds one. */
  function MentionIn(m: Message): Option<Mention> {
    if m.text.None? then None else FindMention(m.text.value)
  }

  /** The date prefix of m's title, if m has a non-empty title that starts with one. */
  function DateIn(m: Message): Option<DateFields> {
    if m.title.None? || m.title.value == [] then None else DatePrefix(m.title.value)
  }

  /** A message yields record rec exactly when its text holds a mention whose token `int()` converts, the
      player is known, and its title starts with a date that exists; rec then carries that player,
      the mention's number and attempts, and that date and its year. */
  lemma EmitCharacterised(player: Option<string>, m: Message, rec: Record)
    ensures Emit(player, m) == Ok(Some(rec)) <==>
      && MentionIn(m).Some? && Known(player) && DateIn(m).Some?
      && ParsePuzzle(MentionIn(m).value.puzzleToken) == Ok(rec.puzzle)
      && MakeDate(DateIn(m).value) == Some(rec.date)
      && rec.player == player.value
      && rec.attempts == MentionIn(m).value.attempts
      && rec.year == DateIn(m).value.year
  {
  }

  /** The run is aborted by m exactly when a mention is found while a player is known, and either its
      token has no digit or more digits than `int()` converts, or the title starts with a date that
      does not exist. */
  lemma EmitRaises(player: Option<string>, m: Message)
    ensures Emit(player, m).Err? <==>
      && MentionIn(m).Some? && Known(player)
      && (|| (forall i :: 0 <= i < |MentionIn(m).value.puzzleToken| ==> MentionIn(m).value.puzzleToken[i] == ',')
          || |RemoveCommas(MentionIn(m).value.puzzleToken)| > MaxIntDigits
          || (DateIn(m).Some? && !IsValidDate(DateIn(m).value.year, DateIn(m).value.month, DateIn(m).value.day)))
  {
  }

  /** The current player after the messages of a file, which starts with none. */
  function PlayerAfter(msgs: seq<Message>): Option<string>
  {
    if msgs == [] then None else NextPlayer(PlayerAfter(msgs[..|msgs| - 1]), msgs[|msgs| - 1])
  }

  /** The records of one file, in message order, or the first error raised. */
  function FileRecords(msgs: seq<Message>): (r: Result<seq<Record>, ParseError>)
    ensures r.Ok? ==> |r.value| <= |msgs|
    ensures r.Ok? ==> forall i :: 0 <= i < |r.value| ==> WellFormed(r.value[i])
  {
    if msgs == [] then Ok([])
    else match FileRecords(msgs[..|msgs| - 1])
      case Err(e) => Err(e)
      case Ok(rs) =>
        match Emit(PlayerAfter(msgs), msgs[|msgs| - 1])
        case Err(e) => Err(e)
        case Ok(o) => Ok(if o.Some? then rs + [o.value] else rs)
  }

  /** The records of all files in processing order (the caller sorts the file names), or the first error. */
  function AllRecords(files: seq<seq<Message>>): Result<seq<Record>, ParseError>
  {
    if files == [] then Ok([])
    else Join(AllRecords(files[..|files| - 1]), FileRecords(files[|files| - 1]))
  }

  function Join(a: Result<seq<Record>, ParseError>, b: Result<seq<Record>, ParseError>): Result<seq<Record>, ParseError>
  {
    match a
    case Err(e) => Err(e)
    case Ok(x) => match b case Err(e) => Err(e) case Ok(y) => Ok(x + y)
  }

  /** Attribution is sticky: the player in effect is the normalised label of the last message that
      carries one, whatever the messages after it hold (with or without text). */
  lemma {:induction false} StickyAuthor(msgs: seq<Message>, k: nat)
    requires k < |msgs| && msgs[k].author.Some?
    requires forall j :: k < j < |msgs| ==> msgs[j].author.None?
    ensures PlayerAfter(msgs) == Some(NormaliseName(msgs[k].author.value))
  {
    if k < |msgs| - 1 {
      StickyAuthor(msgs[..|msgs| - 1], k);
    }
  }

  /** Before any author label the slot is empty. */
  lemma {:induction false} NoAuthorNoPlayer(msgs: seq<Message>)
    requires forall j :: 0 <= j < |msgs| ==> msgs[j].author.None?
    ensures PlayerAfter(msgs) == None
  {
    if msgs != [] {
      NoAuthorNoPlayer(msgs[..|msgs| - 1]);
    }
  }

  /** Mentions posted before the first author label of a file yield nothing. */
  lemma {:induction false} NoRecordBeforeAuthor(msgs: seq<Message>)
    requires forall j :: 0 <= j < |msgs| ==> msgs[j].author.None?
    ensures FileRecords(msgs) == Ok([])
  {
    if msgs != [] {
      NoRecordBeforeAuthor(msgs[..|msgs| - 1]);
      NoAuthorNoPlayer(msgs);
    }
  }

  /** Every record of a file is attributed to an author label of that same file. */
  lemma {:induction false} PlayerFromSameFile(msgs: seq<Message>)
    requires FileRecords(msgs).Ok?
    ensures forall r :: r in FileRecords(msgs).value ==>
      exists j :: 0 <= j < |msgs| && msgs[j].author.Some? && r.player == NormaliseName(msgs[j].author.value)
  {
    if msgs != [] {
      var init := msgs[..|msgs| - 1];
      PlayerFromSameFile(init);
      PlayerNamesALabel(msgs);
      forall r | r in FileRecords(msgs).value
        ensures exists j :: 0 <= j < |msgs| && msgs[j].author.Some? && r.player == NormaliseName(msgs[j].author.value)
      {
        if r in FileRecords(init).value {
          var j :| 0 <= j < |init| && init[j].author.Some? && r.player == NormaliseName(init[j].author.value);
          assert msgs[j] == init[j];
        }
      }
    }
  }

  lemma {:induction false} PlayerNamesALabel(msgs: seq<Message>)
    ensures PlayerAfter(msgs).Some? ==>
      exists j :: 0 <= j < |msgs| && msgs[j].author.Some? && PlayerAfter(msgs).value == NormaliseName(msgs[j].author.value)
  {
    if msgs != [] && msgs[|msgs| - 1].author.None? {
      var init := msgs[..|msgs| - 1];
      PlayerNamesALabel(init);
      if PlayerAfter(init).Some? {
        var j :| 0 <= j < |init| && init[j].author.Some? && PlayerAfter(init).value == NormaliseName(init[j].author.value);
        assert msgs[j] == init[j];
      }
    }
  }

  /** The slot is reset at every file start: the run over two batches of files is the run over the
      first followed by the run over the second, each file's records independent of earlier files. */
  lemma {:induction false} AllRecordsSplit(fs1: seq<seq<Message>>, fs2: seq<seq<Message>>)
    ensures AllRecords(fs1 + fs2) == Join(AllRecords(fs1), AllRecords(fs2))
  {
    if fs2 == [] {
      assert fs1 + fs2 == fs1;
      match AllRecords(fs1)
      case Err(e) =>
      case Ok(x) => assert x + [] == x;
    } else {
      var init := fs2[..|fs2| - 1];
      assert (fs1 + fs2)[..|fs1 + fs2| - 1] == fs1 + init;
      assert (fs1 + fs2)[|fs1 + fs2| - 1] == fs2[|fs2| - 1];
      AllRecordsSplit(fs1, init);
      match AllRecords(fs1)
      case Err(e) =>
      case Ok(x) =>
        match AllRecords(init)
        case Err(e) =>
        case Ok(y) =>
          match FileRecords(fs2[|fs2| - 1])
          case Err(e) =>
          case Ok(z) => assert x + y + z == x + (y + z);
    }
  }

  /** Once a prefix of a file raises, the whole file raises with that error. */
  lemma {:induction false} FileErrorSticks(msgs: seq<Message>, i: nat)
    requires i <= |msgs| && FileRecords(msgs[..i]).Err?
    ensures FileRecords(msgs) == FileRecords(msgs[..i])
    decreases |msgs| - i
  {
    if i < |msgs| {
      assert msgs[..i + 1][..i] == msgs[..i];
      FileErrorSticks(msgs, i + 1);
    } else {
      assert msgs[..i] == msgs;
    }
  }

  /** An error raised in the messages of file fi ends the run with that error. */
  lemma RunAborts(files: seq<seq<Message>>, fi: nat, mi: nat)
    requires fi < |files| && mi <= |files[fi]|
    requires AllRecords(files[..fi]).Ok? && FileRecords(files[fi][..mi]).Err?
    ensures AllRecords(files) == FileRecords(files[fi][..mi])
  {
    FileErrorSticks(files[fi], mi);
    var done := files[..fi + 1];
    assert done[..fi] == files[..fi] && done[fi] == files[fi];
    assert AllRecords(done) == FileRecords(files[fi][..mi]);
    AllRecordsSplit(done, files[fi + 1..]);
    assert done + files[fi + 1..] == files;
  }

  /** The body of the message loop: update the current player from m's label, then look for a
      mention, and for a date when a player is known; the outcome is the record to append, nothing,
      or the exception raised. */
  method ScanMessage(currentPlayer: Option<string>, m: Message)
    returns (player: Option<string>, outcome: Result<Option<Record>, ParseError>)
    ensures player == NextPlayer(currentPlayer, m)
    ensures outcome == Emit(player, m)
  {
    player := currentPlayer;
    if m.author.Some? {
      player := Some(NormaliseName(m.author.value));
    }
    if m.text.None? {
      return player, Ok(None);
    }
    var mention := FindMention(m.text.value);
    if mention.None? || player.None? || player.value == [] {
      return player, Ok(None);
    }
    var puzzle := ParsePuzzle(mention.value.puzzleToken);
    if puzzle == Err(NoDigits) {
      return player, Err(EmptyPuzzleNumber(mention.value.puzzleToken));
    }
    if puzzle.Err? {
      return player, Err(PuzzleNumberTooLong(mention.value.puzzleToken));
    }
    if m.title.None? || m.title.value == [] {
      return player, Ok(None);
    }
    var fields := DatePrefix(m.title.value);
    if fields.None? {
      return player, Ok(None);
    }
    var date := MakeDate(fields.value);
    if date.None? {
      return player, Err(InvalidDate(fields.value));
    }
    outcome := Ok(Some(Record(player.value, puzzle.value, mention.value.attempts, date.value, date.value.year)));
  }

  /** `parse_html_files` after the glob: one loop over files, one over each file's messages, threading
      the current player and appending to the results; an exception ends the whole run. */
  method ParseHtmlFiles(files: seq<seq<Message>>) returns (result: Result<seq<Record>, ParseError>)
    ensures result == AllRecords(files)
  {
    var results: seq<Record> := [];
    var fi := 0;
    while fi < |files|
      invariant 0 <= fi <= |files|
      invariant AllRecords(files[..fi]) == Ok(results)
    {
      var messages := files[fi];
      assert files[..fi + 1][..fi] == files[..fi] && files[..fi + 1][fi] == messages;
      ghost var before := results;
      var currentPlayer: Option<string> := None;
      var mi := 0;
      while mi < |messages|
        invariant 0 <= mi <= |messages|
        invariant currentPlayer == PlayerAfter(messages[..mi])
        invariant FileRecords(messages[..mi]).Ok?
        invariant results == before + FileRecords(messages[..mi]).value
      {
        assert messages[..mi + 1][..mi] == messages[..mi];
        var outcome;
        currentPlayer, outcome := ScanMessage(currentPlayer, messages[mi]);
        match outcome
        case Err(e) =>
          RunAborts(files, fi, mi + 1);
          return Err(e);
        case Ok(o) =>
          if o.Some? {
            results := results + [o.value];
          }
        mi := mi + 1;
      }
      assert messages[..mi] == messages;
      fi := fi + 1;
    }
    assert files[..fi] == files;
    return Ok(results);
  }
}
