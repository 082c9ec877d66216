/**
 From the characters of a `docker run` command to groups of flags, an image and arguments.

 Whether an unknown flag takes the next token is a guess. A reading that ends without an image
 gives up its latest guess and the next one counts that flag among the switches.
 */
module DockerRun {
  import opened Results

  // ---------------------------------------------------------------- tokens

  predicate IsSpace(c: char) {
    || c in {' ', '\t', '\n', '\r', '\U{000B}', '\U{000C}', '\U{00A0}', '\U{1680}', '\U{2028}', '\U{2029}', '\U{202F}', '\U{205F}', '\U{3000}', '\U{FEFF}'}
    || '\U{2000}' <= c <= '\U{200A}'
  }

  predicate Continues(rest: string) {
    |rest| > 1 && rest[0] == '\\' && (rest[1] == '\n' || rest[1] == '\r')
  }

  /** The tokens of what is left, given the one begun, the open quote and whether anything was quoted. */
  function Tokens(rest: string, current: string, quote: Option<char>, hasContent: bool): seq<string>
    decreases |rest|
  {
    if |rest| == 0 then (if current != "" || hasContent then [current] else [])
    else
      var c := rest[0];
      if quote.Some? then
        if c == quote.value then Tokens(rest[1..], current, None, hasContent) else Tokens(rest[1..], current + [c], quote, hasContent)
      else if c == '"' || c == '\'' then Tokens(rest[1..], current, Some(c), true)
      else if Continues(rest) then Tokens(rest[2..], current, None, hasContent)
      else if IsSpace(c) then
        (if current != "" || hasContent then [current] + Tokens(rest[1..], "", None, false) else Tokens(rest[1..], current, None, hasContent))
      else Tokens(rest[1..], current + [c], None, hasContent)
  }

  /** The loop over the characters: quotes and backslashes are resolved, nothing is expanded. */
  method TokeniseCommand(command: string) returns (tokens: seq<string>)
    ensures tokens == Tokens(command, "", None, false)
  {
    tokens := [];
    var current, quote, hasContent := "", None, false;
    var index := 0;
    assert command[0..] == command;
    while index < |command|
      invariant 0 <= index <= |command|
      invariant Tokens(command, "", None, false) == tokens + Tokens(command[index..], current, quote, hasContent)
    {
      var character := command[index];
      ghost var rest := command[index..];
      assert rest[0] == character && rest[1..] == command[index + 1..];
      if quote.Some? {
        if character == quote.value {
          quote := None;
        } else {
          current := current + [character];
        }
      } else if character == '"' || character == '\'' {
        quote, hasContent := Some(character), true;
      } else if character == '\\' && index + 1 < |command| && (command[index + 1] == '\n' || command[index + 1] == '\r') {
        assert Continues(rest) && rest[2..] == command[index + 2..];
        index := index + 1;
      } else if IsSpace(character) {
        assert !Continues(rest);
        if current != "" || hasContent {
          tokens := tokens + [current];
          current, hasContent := "", false;
        }
      } else {
        assert !Continues(rest);
        current := current + [character];
      }
      index := index + 1;
    }
    if current != "" || hasContent {
      tokens := tokens + [current];
    }
  }

  /** Every character on its own between quotes of the other kind. */
  function QuotedChar(c: char): string {
    if c == '"' then ['\'', c, '\''] else ['"', c, '"']
  }

  function QuotedChars(token: string): string {
    if |token| == 0 then "" else QuotedChar(token[0]) + QuotedChars(token[1..])
  }

  function Quoted(token: string): string {
    "\"\"" + QuotedChars(token)
  }

  function Joined(tokens: seq<string>): string {
    if |tokens| == 0 then "" else Quoted(tokens[0]) + " " + Joined(tokens[1..])
  }

  lemma QuotedCharIsRead(c: char, rest: string, current: string)
    ensures Tokens(QuotedChar(c) + rest, current, None, true) == Tokens(rest, current + [c], None, true)
  {
    var text := QuotedChar(c) + rest;
    var quote := text[0];
    assert quote != c && text[1..][0] == c && text[2..][0] == quote && text[1..][1..] == text[2..] && text[2..][1..] == rest;
    assert Tokens(text, current, None, true) == Tokens(text[1..], current, Some(quote), true);
    assert Tokens(text[1..], current, Some(quote), true) == Tokens(text[2..], current + [c], Some(quote), true);
  }

  lemma {:induction false} QuotedCharsAreRead(token: string, rest: string, current: string)
    ensures Tokens(QuotedChars(token) + rest, current, None, true) == Tokens(rest, current + token, None, true)
  {
    if |token| == 0 {
      assert QuotedChars(token) + rest == rest && current + token == current;
    } else {
      assert QuotedChars(token) + rest == QuotedChar(token[0]) + (QuotedChars(token[1..]) + rest);
      QuotedCharIsRead(token[0], QuotedChars(token[1..]) + rest, current);
      QuotedCharsAreRead(token[1..], rest, current + [token[0]]);
      assert current + [token[0]] + token[1..] == current + token;
    }
  }

  /** Any list of tokens can be written as a command that reads back as exactly that list. */
  lemma {:induction false} TokensOfJoined(tokens: seq<string>)
    ensures Tokens(Joined(tokens), "", None, false) == tokens
  {
    if |tokens| > 0 {
      var rest := " " + Joined(tokens[1..]);
      var text := "\"\"" + (QuotedChars(tokens[0]) + rest);
      assert Joined(tokens) == text;
      assert text[1..][0] == '"' && text[1..][1..] == QuotedChars(tokens[0]) + rest;
      assert Tokens(text, "", None, false) == Tokens(QuotedChars(tokens[0]) + rest, "", None, true);
      QuotedCharsAreRead(tokens[0], rest, "");
      assert "" + tokens[0] == tokens[0];
      assert rest[1..] == Joined(tokens[1..]) && !Continues(rest);
      TokensOfJoined(tokens[1..]);
    }
  }

  /** The ways to write a part of a token: a bare character, quoted text, or a line continued on the next. */
  datatype Piece = Bare(c: char) | Quote(mark: char, text: string) | Continued(newline: char)

  predicate Written(piece: Piece) {
    match piece
    case Bare(c) => c != '"' && c != '\'' && !IsSpace(c)
    case Quote(mark, text) => (mark == '"' || mark == '\'') && mark !in text
    case Continued(newline) => newline == '\n' || newline == '\r'
  }

  function PieceText(piece: Piece): string {
    match piece
    case Bare(c) => [c]
    case Quote(mark, text) => [mark] + text + [mark]
    case Continued(newline) => ['\\', newline]
  }

  function PieceMeaning(piece: Piece): string {
    match piece
    case Bare(c) => [c]
    case Quote(_, text) => text
    case Continued(_) => ""
  }

  function TextOf(pieces: seq<Piece>): string {
    if |pieces| == 0 then "" else PieceText(pieces[0]) + TextOf(pieces[1..])
  }

  function MeaningOf(pieces: seq<Piece>): string {
    if |pieces| == 0 then "" else PieceMeaning(pieces[0]) + MeaningOf(pieces[1..])
  }

  /** The parts of a token and the space after it, which does not turn a bare backslash into a continuation. */
  datatype Word = Word(pieces: seq<Piece>, space: char)

  predicate WellWritten(word: Word) {
    && (forall piece | piece in word.pieces :: Written(piece))
    && IsSpace(word.space)
    && (word.space in {'\n', '\r'} ==> |word.pieces| > 0 ==> word.pieces[|word.pieces| - 1] != Bare('\\'))
  }

  predicate HasQuote(pieces: seq<Piece>) {
    exists piece :: piece in pieces && piece.Quote?
  }

  function LineOf(words: seq<Word>): string {
    if |words| == 0 then "" else TextOf(words[0].pieces) + [words[0].space] + LineOf(words[1..])
  }

  /** A word without a character and without quotes is no token. */
  function TokensMeant(words: seq<Word>): seq<string> {
    if |words| == 0 then []
    else
      (if MeaningOf(words[0].pieces) == "" && !HasQuote(words[0].pieces) then [] else [MeaningOf(words[0].pieces)])
      + TokensMeant(words[1..])
  }

  lemma {:induction false} QuotedTextIsRead(mark: char, text: string, rest: string, current: string)
    requires mark !in text
    ensures Tokens(text + [mark] + rest, current, Some(mark), true) == Tokens(rest, current + text, None, true)
  {
    var all := text + [mark] + rest;
    if |text| == 0 {
      assert all[0] == mark && all[1..] == rest && current + text == current;
    } else {
      assert all[0] == text[0] && all[0] != mark && all[1..] == text[1..] + [mark] + rest;
      QuotedTextIsRead(mark, text[1..], rest, current + [text[0]]);
      assert current + [text[0]] + text[1..] == current + text;
    }
  }

  /** No written part starts with a space. */
  lemma PartsStartSolid(pieces: seq<Piece>)
    requires |pieces| > 0 && Written(pieces[0])
    ensures |TextOf(pieces)| > 0 && TextOf(pieces)[0] != '\n' && TextOf(pieces)[0] != '\r'
  {
  }

  lemma {:induction false} PiecesAreRead(pieces: seq<Piece>, space: char, rest: string, current: string, hasContent: bool)
    requires WellWritten(Word(pieces, space))
    ensures Tokens(TextOf(pieces) + [space] + rest, current, None, hasContent)
            == Tokens([space] + rest, current + MeaningOf(pieces), None, hasContent || HasQuote(pieces))
  {
    if |pieces| == 0 {
      assert TextOf(pieces) + [space] + rest == [space] + rest && current + MeaningOf(pieces) == current;
    } else {
      var more, first := pieces[1..], pieces[0];
      hide *;
      FirstPiece(pieces, [space] + rest, current);
      Regrouped(TextOf(more), [space], rest);
      Regrouped(TextOf(pieces), [space], rest);
      RestIsWellWritten(pieces, space);
      OnePieceIsRead(first, more, space, rest, current, hasContent);
      PiecesAreRead(more, space, rest, current + PieceMeaning(first), hasContent || first.Quote?);
    }
  }

  lemma FirstPiece(pieces: seq<Piece>, rest: string, current: string)
    requires |pieces| > 0
    ensures TextOf(pieces) + rest == PieceText(pieces[0]) + (TextOf(pieces[1..]) + rest)
    ensures current + PieceMeaning(pieces[0]) + MeaningOf(pieces[1..]) == current + MeaningOf(pieces)
  {
    hide PieceText, PieceMeaning;
    var text, more := PieceText(pieces[0]), TextOf(pieces[1..]);
    var meaning, further := PieceMeaning(pieces[0]), MeaningOf(pieces[1..]);
    assert TextOf(pieces) == text + more && MeaningOf(pieces) == meaning + further;
    hide *;
    Regrouped(text, more, rest);
    Regrouped(current, meaning, further);
  }

  lemma Regrouped(a: string, b: string, c: string)
    ensures a + b + c == a + (b + c)
  {
  }

  lemma RestIsWellWritten(pieces: seq<Piece>, space: char)
    requires |pieces| > 0 && WellWritten(Word(pieces, space))
    ensures Written(pieces[0]) && WellWritten(Word(pieces[1..], space))
    ensures pieces[1..] == [] && pieces[0] == Bare('\\') ==> space != '\n' && space != '\r'
    ensures HasQuote(pieces) <==> pieces[0].Quote? || HasQuote(pieces[1..])
  {
    var more := pieces[1..];
    assert pieces == [pieces[0]] + more;
    assert pieces[0] in pieces && forall piece | piece in more :: piece in pieces;
    assert |more| > 0 ==> more[|more| - 1] == pieces[|pieces| - 1];
  }

  lemma OnePieceIsRead(first: Piece, more: seq<Piece>, space: char, rest: string, current: string, hasContent: bool)
    requires Written(first) && WellWritten(Word(more, space)) && (more == [] && first == Bare('\\') ==> space != '\n' && space != '\r')
    ensures var tail := TextOf(more) + [space] + rest;
            Tokens(PieceText(first) + tail, current, None, hasContent)
            == Tokens(tail, current + PieceMeaning(first), None, hasContent || first.Quote?)
  {
    var tail := TextOf(more) + [space] + rest;
    match first {
      case Bare(c) =>
        TailStarts(more, space, rest);
        BareIsRead(c, tail, current, hasContent);
      case Quote(mark, text) =>
        QuoteIsRead(mark, text, tail, current, hasContent);
      case Continued(newline) =>
        ContinuationIsRead(newline, tail, current, hasContent);
    }
  }

  lemma TailStarts(more: seq<Piece>, space: char, rest: string)
    requires WellWritten(Word(more, space))
    ensures var tail := TextOf(more) + [space] + rest;
            |tail| > 0 && if |more| > 0 then tail[0] != '\n' && tail[0] != '\r' else tail[0] == space
  {
    if |more| > 0 {
      assert more[0] in more;
      PartsStartSolid(more);
      assert (TextOf(more) + [space] + rest)[0] == TextOf(more)[0];
    }
  }

  lemma BareIsRead(c: char, tail: string, current: string, hasContent: bool)
    requires Written(Bare(c)) && |tail| > 0 && (c == '\\' ==> tail[0] != '\n' && tail[0] != '\r')
    ensures Tokens(PieceText(Bare(c)) + tail, current, None, hasContent) == Tokens(tail, current + [c], None, hasContent)
  {
    var all := [c] + tail;
    assert all[1..] == tail && all[1] == tail[0];
  }

  lemma QuoteIsRead(mark: char, text: string, tail: string, current: string, hasContent: bool)
    requires Written(Quote(mark, text))
    ensures Tokens(PieceText(Quote(mark, text)) + tail, current, None, hasContent) == Tokens(tail, current + text, None, true)
  {
    var all := [mark] + text + [mark] + tail;
    assert all[0] == mark && all[1..] == text + [mark] + tail;
    QuotedTextIsRead(mark, text, tail, current);
  }

  lemma ContinuationIsRead(newline: char, tail: string, current: string, hasContent: bool)
    requires Written(Continued(newline))
    ensures Tokens(PieceText(Continued(newline)) + tail, current, None, hasContent) == Tokens(tail, current + "", None, hasContent)
  {
    var all := ['\\', newline] + tail;
    assert all[1] == newline && all[2..] == tail && current + "" == current;
  }

  /**
   However tokens are written, bare, quoted, broken over lines or all of it, and whatever
   spaces stand between them, the command reads back as what was written.
   */
  lemma {:induction false} TokensOfLine(words: seq<Word>)
    requires forall word | word in words :: WellWritten(word)
    ensures Tokens(LineOf(words), "", None, false) == TokensMeant(words)
  {
    if |words| > 0 {
      var word, rest := words[0], LineOf(words[1..]);
      assert word in words && word == Word(word.pieces, word.space);
      assert LineOf(words) == TextOf(word.pieces) + [word.space] + rest;
      PiecesAreRead(word.pieces, word.space, rest, "", false);
      var meant, quoted := MeaningOf(word.pieces), HasQuote(word.pieces);
      assert "" + meant == meant;
      TokensOfLine(words[1..]);
      SpaceEndsToken(word.space, rest, meant, quoted);
    }
  }

  lemma SpaceEndsToken(space: char, rest: string, current: string, hasContent: bool)
    requires IsSpace(space)
    ensures Tokens([space] + rest, current, None, hasContent)
            == (if current == "" && !hasContent then [] else [current]) + Tokens(rest, "", None, false)
  {
    var all := [space] + rest;
    assert all[1..] == rest && !Continues(all) && space != '"' && space != '\'';
  }

  // ---------------------------------------------------------------- flags

  /** The known flags: how a short or other spelling is written out, and which of them take a value. */
  datatype Table = Table(canonical: map<string, string>, known: set<string>, valued: set<string>)

  datatype Flag = Flag(name: string, value: Option<string>)

  function Canonical(table: Table, flag: string): string {
    if flag in table.canonical then table.canonical[flag] else flag
  }

  predicate Known(table: Table, flag: string) {
    Canonical(table, flag) in table.known
  }

  predicate TakesValue(table: Table, flag: string) {
    Canonical(table, flag) in table.valued
  }

  predicate IsFlag(token: string) {
    |token| > 0 && token[0] == '-'
  }

  predicate IsLong(token: string) {
    |token| > 1 && token[0] == '-' && token[1] == '-'
  }

  /** A token that an unknown flag takes as its value: anything but another flag, or a negative number. */
  predicate LooksLikeValue(next: Option<string>) {
    next.Some? && (!IsFlag(next.value) || (|next.value| > 1 && '0' <= next.value[1] <= '9'))
  }

  predicate LongFlagTakesValue(table: Table, flag: string, next: Option<string>) {
    if Known(table, flag) then TakesValue(table, flag) else LooksLikeValue(next)
  }

  /** Split on the first separator. */
  function SplitOnce(token: string): (string, Option<string>) {
    if |token| == 0 then ("", None)
    else if token[0] == '=' then ("", Some(token[1..]))
    else
      var (name, value) := SplitOnce(token[1..]);
      ([token[0]] + name, value)
  }

  lemma {:induction false} SplitOnceRejoins(token: string)
    ensures var (name, value) := SplitOnce(token); token == name + if value.Some? then "=" + value.value else ""
    ensures '=' !in SplitOnce(token).0
  {
    if |token| > 0 && token[0] != '=' {
      SplitOnceRejoins(token[1..]);
      assert token == [token[0]] + token[1..];
    }
  }

  /** The flags of a token of short ones, and whether the last of them takes the next token. */
  function ShortFlags(table: Table, letters: string, next: Option<string>): (seq<Flag>, bool)
    decreases |letters|
  {
    if |letters| == 0 then ([], false)
    else
      var name := "-" + letters[..1];
      if |letters| > 2 && letters[1] == '=' then ([Flag(name, Some(letters[2..]))], false)
      else if TakesValue(table, name) then
        (if |letters| > 1 then ([Flag(name, Some(letters[1..]))], false) else ([Flag(name, next)], true))
      else
        var (flags, consumed) := ShortFlags(table, letters[1..], next);
        ([Flag(name, None)] + flags, consumed)
  }

  /** Tokens that were read together, the flags they gave, and whether that was a guess. */
  datatype Group = Group(tokens: seq<string>, flags: seq<Flag>, guess: bool)

  function Next(tokens: seq<string>, index: nat): Option<string> {
    if index + 1 < |tokens| then Some(tokens[index + 1]) else None
  }

  function WithNext(tokens: seq<string>, index: nat): (seq<string>)
    requires index < |tokens|
  {
    if index + 1 < |tokens| then tokens[index..index + 2] else tokens[index..]
  }

  /** The group that starts at a flag. */
  function GroupAt(table: Table, tokens: seq<string>, index: nat, switches: set<nat>): Group
    requires index < |tokens| && IsFlag(tokens[index])
  {
    var token, next := tokens[index], Next(tokens, index);
    if IsLong(token) then
      var (name, inlineValue) := SplitOnce(token);
      if inlineValue.Some? then Group([token], [Flag(name, inlineValue)], false)
      else if index !in switches && LongFlagTakesValue(table, name, next)
      then Group(WithNext(tokens, index), [Flag(name, next)], !Known(table, name))
      else Group([token], [Flag(name, None)], false)
    else
      var (flags, consumed) := ShortFlags(table, token[1..], next);
      Group(if consumed then WithNext(tokens, index) else [token], flags, false)
  }

  datatype Reading = Reading(groups: seq<Group>, image: Option<string>, args: seq<string>, guessed: Option<nat>)

  /** One reading from an index on: groups up to the first token that is no flag. */
  function Read(table: Table, tokens: seq<string>, index: nat, switches: set<nat>): Reading
    requires index <= |tokens|
    decreases |tokens| - index
  {
    if index == |tokens| then Reading([], None, [], None)
    else if !IsFlag(tokens[index]) then Reading([], Some(tokens[index]), tokens[index + 1..], None)
    else
      var group := GroupAt(table, tokens, index, switches);
      var rest := Read(table, tokens, index + |group.tokens|, switches);
      Reading([group] + rest.groups, rest.image, rest.args,
              if rest.guessed.Some? then rest.guessed else if group.guess then Some(index) else None)
  }

  /** Where the flags start: after the first token that is `run`. */
  function AfterRun(tokens: seq<string>): (start: nat)
    ensures start <= |tokens|
  {
    if |tokens| == 0 then 0 else if tokens[0] == "run" then 1 else AfterRun(tokens[1..]) + 1
  }

  function FlagsOf(groups: seq<Group>): seq<Flag> {
    if |groups| == 0 then [] else groups[0].flags + FlagsOf(groups[1..])
  }

  function TokensOf(groups: seq<Group>): seq<string> {
    if |groups| == 0 then [] else groups[0].tokens + TokensOf(groups[1..])
  }

  // ---------------------------------------------------------------- no token is lost

  /** How the letters of a short token are spelled out again; `=` may stand before the value. */
  function Spelled(flags: seq<Flag>, consumed: bool, equals: string): string {
    if |flags| == 0 then ""
    else
      flags[0].name[if |flags[0].name| > 0 then 1 else 0..]
      + (if flags[0].value.Some? && !(consumed && |flags| == 1) then equals + flags[0].value.value else "")
      + Spelled(flags[1..], consumed, equals)
  }

  lemma LetterInFront(letter: string, flags: seq<Flag>, consumed: bool, equals: string)
    requires |letter| == 1
    ensures Spelled([Flag("-" + letter, None)] + flags, consumed, equals) == letter + Spelled(flags, consumed, equals)
  {
    var all := [Flag("-" + letter, None)] + flags;
    assert all[1..] == flags && ("-" + letter)[1..] == letter;
  }

  lemma OneFlagSpelled(letter: string, value: Option<string>, consumed: bool, equals: string)
    requires |letter| == 1
    ensures Spelled([Flag("-" + letter, value)], consumed, equals) == letter + if value.Some? && !consumed then equals + value.value else ""
  {
    var all := [Flag("-" + letter, value)];
    assert all[1..] == [] && ("-" + letter)[1..] == letter;
  }

  lemma NothingSpelled()
    ensures Spelled([], false, "") == ""
  {
  }

  lemma {:induction false} ShortFlagsSpellOut(table: Table, letters: string, next: Option<string>)
    ensures var (flags, consumed) := ShortFlags(table, letters, next);
            && (letters == Spelled(flags, consumed, "") || letters == Spelled(flags, consumed, "="))
            && (|letters| > 0 ==> |flags| > 0)
            && (consumed ==> |flags| > 0 && flags[|flags| - 1].value == next)
  {
    NothingSpelled();
    hide Spelled;
    if |letters| > 0 {
      assert letters == letters[..1] + letters[1..];
      if |letters| > 2 && letters[1] == '=' {
        OneFlagSpelled(letters[..1], Some(letters[2..]), false, "=");
        assert letters == letters[..1] + ("=" + letters[2..]);
      } else if TakesValue(table, "-" + letters[..1]) {
        OneFlagSpelled(letters[..1], if |letters| > 1 then Some(letters[1..]) else next, |letters| == 1, "");
      } else {
        var (flags, consumed) := ShortFlags(table, letters[1..], next);
        ShortFlagsSpellOut(table, letters[1..], next);
        LetterInFront(letters[..1], flags, consumed, "");
        LetterInFront(letters[..1], flags, consumed, "=");
      }
    }
  }

  /** The letters are those of the flags with their values, but for a value that is a token of its own. */
  predicate SpellsOut(letters: string, flags: seq<Flag>) {
    letters in {Spelled(flags, false, ""), Spelled(flags, true, ""), Spelled(flags, false, "="), Spelled(flags, true, "=")}
  }

  /** A long flag is its name, with the value after `=` unless that is a token of its own. */
  predicate LongSpelled(token: string, flag: Flag, ownValue: bool) {
    token == flag.name + if !ownValue && flag.value.Some? then "=" + flag.value.value else ""
  }

  /** A group's flags say all of its tokens: a long flag with its value, or letters with theirs. */
  predicate SaysItsTokens(group: Group) {
    && 1 <= |group.tokens| <= 2 && IsFlag(group.tokens[0])
    && (|group.tokens[0]| > 1 ==> |group.flags| > 0)
    && (|group.tokens| == 2 ==> |group.flags| > 0 && group.flags[|group.flags| - 1].value == Some(group.tokens[1]))
    && (if IsLong(group.tokens[0]) then |group.flags| == 1 && LongSpelled(group.tokens[0], group.flags[0], |group.tokens| == 2)
        else SpellsOut(group.tokens[0][1..], group.flags))
  }

  lemma GroupFits(table: Table, tokens: seq<string>, index: nat, switches: set<nat>)
    requires index < |tokens| && IsFlag(tokens[index])
    ensures var group := GroupAt(table, tokens, index, switches);
            && 1 <= |group.tokens| <= 2 && index + |group.tokens| <= |tokens|
            && tokens[index..index + |group.tokens|] == group.tokens && group.tokens[0] == tokens[index]
            && (|group.tokens| == 2 ==> Next(tokens, index) == Some(group.tokens[1]))
  {
    hide ShortFlags, SplitOnce, LongFlagTakesValue, IsLong;
  }

  lemma GroupSaysItsTokens(table: Table, tokens: seq<string>, index: nat, switches: set<nat>)
    requires index < |tokens| && IsFlag(tokens[index])
    ensures SaysItsTokens(GroupAt(table, tokens, index, switches))
  {
    GroupFits(table, tokens, index, switches);
    var token := tokens[index];
    if IsLong(token) {
      SplitOnceRejoins(token);
      hide SplitOnce, ShortFlags, LongFlagTakesValue, SpellsOut, Known;
    } else {
      ShortFlagsSpellOut(table, token[1..], Next(tokens, index));
      hide SplitOnce, ShortFlags, Spelled, LongFlagTakesValue, LongSpelled, Known;
    }
  }

  /** The tokens are those of the groups, the image and the arguments, and no more. */
  predicate Splits(tokens: seq<string>, r: Reading) {
    && tokens == TokensOf(r.groups) + (if r.image.Some? then [r.image.value] + r.args else [])
    && (forall i | 0 <= i < |r.groups| :: SaysItsTokens(r.groups[i]))
    && (r.image.Some? ==> !IsFlag(r.image.value))
    && (r.image.None? ==> r.args == [])
  }

  lemma GroupInFront(group: Group, tokens: seq<string>, rest: Reading, guessed: Option<nat>)
    requires SaysItsTokens(group) && Splits(tokens, rest)
    ensures Splits(group.tokens + tokens, Reading([group] + rest.groups, rest.image, rest.args, guessed))
  {
    hide SaysItsTokens;
    var groups := [group] + rest.groups;
    assert groups[1..] == rest.groups;
    var end := if rest.image.Some? then [rest.image.value] + rest.args else [];
    assert group.tokens + (TokensOf(rest.groups) + end) == TokensOf(groups) + end;
  }

  /** A reading splits the tokens into groups of flags, the image and the arguments. */
  lemma {:induction false} ReadingSplitsTokens(table: Table, tokens: seq<string>, index: nat, switches: set<nat>)
    requires index <= |tokens|
    ensures Splits(tokens[index..], Read(table, tokens, index, switches))
    decreases |tokens| - index
  {
    if index < |tokens| && IsFlag(tokens[index]) {
      var group := GroupAt(table, tokens, index, switches);
      GroupSaysItsTokens(table, tokens, index, switches);
      GroupFits(table, tokens, index, switches);
      hide GroupAt, SaysItsTokens, Splits;
      var next := index + |group.tokens|;
      ReadingSplitsTokens(table, tokens, next, switches);
      assert tokens[index..] == group.tokens + tokens[next..];
      GroupInFront(group, tokens[next..], Read(table, tokens, next, switches), Read(table, tokens, index, switches).guessed);
    } else if index < |tokens| {
      assert tokens[index..] == [tokens[index]] + tokens[index + 1..];
    }
  }

  // ---------------------------------------------------------------- which flags take values

  /**
   A long flag has its value after `=`; without one it takes the next token if it is known to
   have values, or, unknown and not counted as a switch, if that token looks like a value.
   */
  lemma LongFlagMeans(table: Table, tokens: seq<string>, index: nat, switches: set<nat>)
    requires index < |tokens| && |tokens[index]| > 1 && tokens[index][0] == '-' && tokens[index][1] == '-'
    ensures var token, group := tokens[index], GroupAt(table, tokens, index, switches);
            var name := if token in table.canonical then table.canonical[token] else token;
            var looks := index + 1 < |tokens|
                         && (|tokens[index + 1]| == 0 || tokens[index + 1][0] != '-'
                             || (|tokens[index + 1]| > 1 && '0' <= tokens[index + 1][1] <= '9'));
            && |group.flags| == 1
            && ('=' in token ==>
                  && group.tokens == [token] && !group.guess && group.flags[0].value.Some? && '=' !in group.flags[0].name
                  && token == group.flags[0].name + "=" + group.flags[0].value.value)
            && ('=' !in token ==> group.flags[0].name == token)
            && ('=' !in token && (index in switches || if name in table.known then name !in table.valued else !looks) ==>
                  group.tokens == [token] && group.flags[0].value.None? && !group.guess)
            && ('=' !in token && index !in switches && (if name in table.known then name in table.valued else looks) ==>
                  && group.flags[0].value == (if index + 1 < |tokens| then Some(tokens[index + 1]) else None)
                  && group.tokens == (if index + 1 < |tokens| then [token, tokens[index + 1]] else [token])
                  && (group.guess <==> name !in table.known))
  {
    var token := tokens[index];
    SplitOnceRejoins(token);
    SplitsExactlyAtSeparator(token);
    GroupFits(table, tokens, index, switches);
    hide SplitOnce, ShortFlags;
    if index + 1 < |tokens| {
      assert tokens[index..index + 2] == [token, tokens[index + 1]];
    } else {
      assert tokens[index..] == [token];
    }
  }

  lemma {:induction false} SplitsExactlyAtSeparator(token: string)
    ensures SplitOnce(token).1.Some? <==> '=' in token
  {
    if |token| > 0 && token[0] != '=' {
      SplitsExactlyAtSeparator(token[1..]);
      assert token == [token[0]] + token[1..];
    }
  }

  /** The letter at which reading short flags stops: it is followed by `=` and more, or has a value. */
  predicate EndsAt(table: Table, letters: string, k: nat)
    requires k < |letters|
  {
    var flag := "-" + [letters[k]];
    || (k + 2 < |letters| && letters[k + 1] == '=')
    || (if flag in table.canonical then table.canonical[flag] else flag) in table.valued
  }

  /**
   Short flags are switches up to the first that ends the token; that one has what follows
   `=`, or what follows it, or, standing last, the next token.
   */
  lemma {:induction false} ShortFlagsMean(table: Table, letters: string, next: Option<string>, k: nat)
    requires k <= |letters| && (forall i | 0 <= i < k :: !EndsAt(table, letters, i)) && (k < |letters| ==> EndsAt(table, letters, k))
    ensures var (flags, consumed) := ShortFlags(table, letters, next);
            && |flags| == (if k < |letters| then k + 1 else k)
            && (forall i | 0 <= i < k :: flags[i] == Flag("-" + [letters[i]], None))
            && (k < |letters| ==>
                  flags[k] == Flag("-" + [letters[k]],
                                   if k + 2 < |letters| && letters[k + 1] == '=' then Some(letters[k + 2..])
                                   else if k + 1 < |letters| then Some(letters[k + 1..]) else next))
            && (consumed <==> k + 1 == |letters|)
  {
    if |letters| > 0 {
      assert letters[..1] == [letters[0]];
      if k > 0 {
        var rest := letters[1..];
        assert !EndsAt(table, letters, 0);
        forall i | 0 <= i < |rest| ensures EndsAt(table, rest, i) <==> EndsAt(table, letters, i + 1) {
        }
        var flags, consumed := ShortFlags(table, rest, next).0, ShortFlags(table, rest, next).1;
        assert ShortFlags(table, letters, next) == ([Flag("-" + [letters[0]], None)] + flags, consumed);
        hide ShortFlags, EndsAt;
        ShortFlagsMean(table, rest, next, k - 1);
        assert forall i | 0 < i < |letters| :: rest[i - 1] == letters[i];
        assert k < |letters| ==> rest[k - 1 + 1..] == letters[k + 1..];
        assert k + 2 < |letters| ==> rest[k - 1 + 2..] == letters[k + 2..];
      }
    }
  }

  /** The flags of a reading are those of its groups, one group after the other. */
  lemma {:induction false} FlagsInOrder(groups: seq<Group>, k: nat)
    requires k < |groups|
    ensures FlagsOf(groups) == FlagsOf(groups[..k]) + groups[k].flags + FlagsOf(groups[k + 1..])
    ensures FlagsOf([]) == []
  {
    if k > 0 {
      FlagsInOrder(groups[1..], k - 1);
      assert groups[1..][..k - 1] == groups[..k][1..] && groups[1..][k..] == groups[k + 1..];
    } else {
      assert groups[..0] == [];
    }
  }

  /** The guess of a reading is that of its last group that was one, named by where that group starts. */
  predicate LatestGuess(groups: seq<Group>, guessed: Option<nat>, index: nat, k: nat) {
    if guessed.None? then forall i | 0 <= i < |groups| :: !groups[i].guess
    else
      && k < |groups| && groups[k].guess && guessed.value == index + |TokensOf(groups[..k])|
      && forall i | k < i < |groups| :: !groups[i].guess
  }

  lemma {:induction false} GuessIsLatest(table: Table, tokens: seq<string>, index: nat, switches: set<nat>) returns (k: nat)
    requires index <= |tokens|
    ensures var reading := Read(table, tokens, index, switches);
            if reading.guessed.None? then forall i | 0 <= i < |reading.groups| :: !reading.groups[i].guess
            else
              && k < |reading.groups| && reading.groups[k].guess && reading.guessed.value == index + |TokensOf(reading.groups[..k])|
              && forall i | k < i < |reading.groups| :: !reading.groups[i].guess
    decreases |tokens| - index
  {
    k := 0;
    if index < |tokens| && IsFlag(tokens[index]) {
      var group := GroupAt(table, tokens, index, switches);
      GroupFits(table, tokens, index, switches);
      var next := index + |group.tokens|;
      var rest := Read(table, tokens, next, switches);
      k := GuessIsLatest(table, tokens, next, switches);
      assert LatestGuess(rest.groups, rest.guessed, next, k);
      assert Read(table, tokens, index, switches)
          == Reading([group] + rest.groups, rest.image, rest.args, if rest.guessed.Some? then rest.guessed else if group.guess then Some(index) else None);
      GroupBeforeGuess(group, rest.groups, rest.guessed, index, k);
      k := if rest.guessed.Some? then k + 1 else 0;
      hide Read, GroupAt, TokensOf;
    }
  }

  lemma GroupBeforeGuess(group: Group, rest: seq<Group>, guessed: Option<nat>, index: nat, k: nat)
    requires LatestGuess(rest, guessed, index + |group.tokens|, k)
    ensures LatestGuess([group] + rest, if guessed.Some? then guessed else if group.guess then Some(index) else None,
                        index, if guessed.Some? then k + 1 else 0)
  {
    var groups := [group] + rest;
    if guessed.Some? {
      assert groups[..k + 1][1..] == rest[..k];
    } else {
      assert groups[..0] == [];
    }
  }

  // ---------------------------------------------------------------- reading again with fewer guesses

  /** The unknown flags, all of which could be switches. */
  predicate IsUnknownFlag(table: Table, token: string) {
    IsLong(token) && !Known(table, SplitOnce(token).0)
  }

  function AllUnknown(table: Table, tokens: seq<string>): set<nat> {
    set i | 0 <= i < |tokens| && IsUnknownFlag(table, tokens[i])
  }

  /** A guess is an unknown flag that was not a switch yet. */
  lemma {:induction false} GuessIsNew(table: Table, tokens: seq<string>, index: nat, switches: set<nat>)
    requires index <= |tokens|
    ensures var guessed := Read(table, tokens, index, switches).guessed;
            guessed.Some? ==> guessed.value in AllUnknown(table, tokens) - switches
    decreases |tokens| - index
  {
    if index < |tokens| && IsFlag(tokens[index]) {
      GroupFits(table, tokens, index, switches);
      GuessIsNew(table, tokens, index + |GroupAt(table, tokens, index, switches).tokens|, switches);
    }
  }

  /** Giving up the latest guess, one after the other, until an image is left or no guess. */
  function Switches(table: Table, tokens: seq<string>, start: nat, switches: set<nat>): (r: set<nat>)
    requires start <= |tokens| && switches <= AllUnknown(table, tokens)
    ensures switches <= r <= AllUnknown(table, tokens)
    ensures var reading := Read(table, tokens, start, r); reading.image.Some? || reading.guessed.None?
    decreases AllUnknown(table, tokens) - switches
  {
    var reading := Read(table, tokens, start, switches);
    GuessIsNew(table, tokens, start, switches);
    if reading.image.Some? || reading.guessed.None? then switches
    else Switches(table, tokens, start, switches + {reading.guessed.value})
  }

  /** A reading without guesses is the reading with every unknown flag a switch. */
  lemma {:induction false} WithoutGuessesAllAreSwitches(table: Table, tokens: seq<string>, index: nat, switches: set<nat>)
    requires index <= |tokens| && switches <= AllUnknown(table, tokens)
    requires Read(table, tokens, index, switches).guessed.None?
    ensures Read(table, tokens, index, switches) == Read(table, tokens, index, AllUnknown(table, tokens))
    decreases |tokens| - index
  {
    if index < |tokens| && IsFlag(tokens[index]) {
      var group := GroupAt(table, tokens, index, switches);
      GroupFits(table, tokens, index, switches);
      WithoutGuessesAllAreSwitches(table, tokens, index + |group.tokens|, switches);
      assert index in AllUnknown(table, tokens) <==> IsUnknownFlag(table, tokens[index]);
      assert GroupAt(table, tokens, index, AllUnknown(table, tokens)) == group;
    }
  }

  datatype ParsedCommand = ParsedCommand(flags: seq<Flag>, image: Option<string>, args: seq<string>)

  function Parsed(reading: Reading): ParsedCommand {
    ParsedCommand(FlagsOf(reading.groups), reading.image, reading.args)
  }

  /** What was read so far, followed by what is left to read, is the whole reading. */
  predicate GoesOn(whole: Reading, flags: seq<Flag>, guessed: Option<nat>, rest: Reading) {
    && FlagsOf(whole.groups) == flags + FlagsOf(rest.groups)
    && whole.image == rest.image && whole.args == rest.args
    && whole.guessed == if rest.guessed.Some? then rest.guessed else guessed
  }

  /** A reading starts with the group at its index and goes on after it. */
  lemma ReadOneGroup(table: Table, tokens: seq<string>, index: nat, switches: set<nat>, whole: Reading, flags: seq<Flag>, guessed: Option<nat>, group: Group)
    requires index < |tokens| && IsFlag(tokens[index]) && GoesOn(whole, flags, guessed, Read(table, tokens, index, switches))
    requires group == GroupAt(table, tokens, index, switches)
    ensures 1 <= |group.tokens| && index + |group.tokens| <= |tokens|
    ensures GoesOn(whole, flags + group.flags, if group.guess then Some(index) else guessed, Read(table, tokens, index + |group.tokens|, switches))
  {
    GroupFits(table, tokens, index, switches);
    hide GroupAt, GoesOn, FlagsOf;
    var rest := Read(table, tokens, index + |group.tokens|, switches);
    var here := Reading([group] + rest.groups, rest.image, rest.args,
                        if rest.guessed.Some? then rest.guessed else if group.guess then Some(index) else None);
    assert Read(table, tokens, index, switches) == here;
    hide Read;
    OneGroupOn(whole, flags, guessed, group, rest, index);
  }

  lemma OneGroupOn(whole: Reading, flags: seq<Flag>, guessed: Option<nat>, group: Group, rest: Reading, index: nat)
    requires GoesOn(whole, flags, guessed, Reading([group] + rest.groups, rest.image, rest.args,
                                                   if rest.guessed.Some? then rest.guessed else if group.guess then Some(index) else None))
    ensures GoesOn(whole, flags + group.flags, if group.guess then Some(index) else guessed, rest)
  {
    assert ([group] + rest.groups)[1..] == rest.groups;
    assert flags + (group.flags + FlagsOf(rest.groups)) == flags + group.flags + FlagsOf(rest.groups);
  }

  /** what stands before `run` does not count. */
  method SkipToRun(tokens: seq<string>) returns (index: nat)
    ensures index == AfterRun(tokens) && index <= |tokens|
  {
    index := 0;
    while index < |tokens| && tokens[index] != "run"
      invariant 0 <= index <= |tokens| && forall i | 0 <= i < index :: tokens[i] != "run"
    {
      index := index + 1;
    }
    if index < |tokens| {
      index := index + 1;
    }
    RunIsFound(tokens, index);
  }

  lemma NothingReadYet(whole: Reading)
    ensures GoesOn(whole, [], None, whole)
  {
    assert [] + FlagsOf(whole.groups) == FlagsOf(whole.groups);
  }

  lemma ReadingEnds(table: Table, tokens: seq<string>, index: nat, switches: set<nat>, whole: Reading, flags: seq<Flag>, guessed: Option<nat>)
    requires index <= |tokens| && (index == |tokens| || !IsFlag(tokens[index]))
    requires GoesOn(whole, flags, guessed, Read(table, tokens, index, switches))
    ensures Parsed(whole) == if index < |tokens| then ParsedCommand(flags, Some(tokens[index]), tokens[index + 1..]) else ParsedCommand(flags, None, [])
    ensures whole.guessed == guessed && (whole.image.Some? <==> index < |tokens|)
  {
  }

  /** Read groups up to the image or the end. */
  method ReadFlags(table: Table, tokens: seq<string>, start: nat, switches: set<nat>) returns (flags: seq<Flag>, index: nat, guessed: Option<nat>)
    requires start <= |tokens|
    ensures index <= |tokens| && (index == |tokens| || !IsFlag(tokens[index]))
    ensures GoesOn(Read(table, tokens, start, switches), flags, guessed, Read(table, tokens, index, switches))
  {
    flags, index, guessed := [], start, None;
    ghost var whole := Read(table, tokens, start, switches);
    hide *;
    NothingReadYet(whole);
    while index < |tokens| && IsFlag(tokens[index])
      invariant index <= |tokens| && GoesOn(whole, flags, guessed, Read(table, tokens, index, switches))
      decreases |tokens| - index
    {
      var group := ReadGroup(table, tokens, index, switches);
      ReadOneGroup(table, tokens, index, switches, whole, flags, guessed, group);
      if group.guess {
        guessed := Some(index);
      }
      flags := flags + group.flags;
      index := index + |group.tokens|;
    }
  }

  /** The loop over the tokens after `run`, with a given set of guesses turned into switches. */
  method ReadTokens(table: Table, tokens: seq<string>, switches: set<nat>) returns (parsed: ParsedCommand, guessed: Option<nat>)
    ensures var reading := Read(table, tokens, AfterRun(tokens), switches);
            parsed == Parsed(reading) && guessed == if reading.image.Some? then None else reading.guessed
  {
    hide *;
    var start := SkipToRun(tokens);
    var flags, index, guess := ReadFlags(table, tokens, start, switches);
    ReadingEnds(table, tokens, index, switches, Read(table, tokens, start, switches), flags, guess);
    if index < |tokens| {
      return ParsedCommand(flags, Some(tokens[index]), tokens[index + 1..]), None;
    }
    return ParsedCommand(flags, None, []), guess;
  }

  lemma {:induction false} RunIsFound(tokens: seq<string>, index: nat)
    requires index <= |tokens| && forall i | 0 <= i < index - 1 :: tokens[i] != "run"
    requires (index > 0 && tokens[index - 1] == "run") || (index == |tokens| && (index > 0 ==> tokens[index - 1] != "run"))
    ensures index == AfterRun(tokens)
  {
    if |tokens| > 0 && index > 1 {
      forall i | 0 <= i < index - 2 ensures tokens[1..][i] != "run" {
        assert tokens[1..][i] == tokens[i + 1];
      }
      RunIsFound(tokens[1..], index - 1);
    }
  }

  /** Read the group that starts at a flag. */
  method ReadGroup(table: Table, tokens: seq<string>, index: nat, switches: set<nat>) returns (group: Group)
    requires index < |tokens| && IsFlag(tokens[index])
    ensures group == GroupAt(table, tokens, index, switches)
  {
    var token, next := tokens[index], Next(tokens, index);
    if IsLong(token) {
      var (name, inlineValue) := SplitOnce(token);
      if inlineValue.Some? {
        return Group([token], [Flag(name, inlineValue)], false);
      }
      if index !in switches && LongFlagTakesValue(table, name, next) {
        return Group(WithNext(tokens, index), [Flag(name, next)], !Known(table, name));
      }
      return Group([token], [Flag(name, None)], false);
    }
    var flags, consumed := ReadLetters(table, token[1..], next);
    return Group(if consumed then WithNext(tokens, index) else [token], flags, false);
  }

  /** What was read of some letters, followed by what is left, is all of them. */
  predicate LettersGoOn(table: Table, letters: string, position: nat, next: Option<string>, flags: seq<Flag>)
    requires position <= |letters|
  {
    var whole, rest := ShortFlags(table, letters, next), ShortFlags(table, letters[position..], next);
    whole.0 == flags + rest.0 && whole.1 == rest.1
  }

  lemma ReadOneLetter(table: Table, letters: string, position: nat, next: Option<string>, flags: seq<Flag>, name: string)
    requires position < |letters| && LettersGoOn(table, letters, position, next, flags) && name == "-" + letters[position..position + 1]
    ensures var whole := ShortFlags(table, letters, next);
            if position + 2 < |letters| && letters[position + 1] == '=' then whole == (flags + [Flag(name, Some(letters[position + 2..]))], false)
            else if TakesValue(table, name) then
              whole == (if position + 1 < |letters| then (flags + [Flag(name, Some(letters[position + 1..]))], false) else (flags + [Flag(name, next)], true))
            else LettersGoOn(table, letters, position + 1, next, flags + [Flag(name, None)])
  {
    var rest := letters[position..];
    assert rest[..1] == letters[position..position + 1] && rest[1..] == letters[position + 1..];
    assert |rest| > 2 ==> rest[2..] == letters[position + 2..];
    var tail := ShortFlags(table, rest[1..], next).0;
    assert flags + ([Flag(name, None)] + tail) == flags + [Flag(name, None)] + tail;
  }

  lemma LettersEnd(table: Table, letters: string, next: Option<string>, flags: seq<Flag>)
    ensures LettersGoOn(table, letters, 0, next, [])
    ensures LettersGoOn(table, letters, |letters|, next, flags) ==> ShortFlags(table, letters, next) == (flags, false)
  {
    assert letters[0..] == letters && letters[|letters|..] == "";
    assert [] + ShortFlags(table, letters, next).0 == ShortFlags(table, letters, next).0;
    assert flags + [] == flags;
  }

  /** Short flags in one token: switches, and at most one with a value, which ends it. */
  method ReadLetters(table: Table, letters: string, next: Option<string>) returns (flags: seq<Flag>, consumed: bool)
    ensures (flags, consumed) == ShortFlags(table, letters, next)
  {
    hide *;
    flags := [];
    var position := 0;
    LettersEnd(table, letters, next, flags);
    while position < |letters|
      invariant 0 <= position <= |letters| && LettersGoOn(table, letters, position, next, flags)
    {
      var name := "-" + letters[position..position + 1];
      ReadOneLetter(table, letters, position, next, flags, name);
      if position + 2 < |letters| && letters[position + 1] == '=' {
        return flags + [Flag(name, Some(letters[position + 2..]))], false;
      }
      if TakesValue(table, name) {
        if position + 1 < |letters| {
          return flags + [Flag(name, Some(letters[position + 1..]))], false;
        }
        return flags + [Flag(name, next)], true;
      }
      flags := flags + [Flag(name, None)];
      position := position + 1;
    }
    LettersEnd(table, letters, next, flags);
    return flags, false;
  }

  /**
   Read a command. The reading with the fewest switches that leaves an image is taken, the
   latest guess given up first; when none leaves one, every unknown flag has been a switch.
   */
  method ParseDockerRun(table: Table, command: string) returns (parsed: ParsedCommand, ghost switches: set<nat>)
    ensures var tokens := Tokens(command, "", None, false);
            var start := AfterRun(tokens);
            var reading := Read(table, tokens, start, switches);
            && switches == Switches(table, tokens, start, {})
            && parsed.flags == FlagsOf(reading.groups) && parsed.image == reading.image && parsed.args == reading.args
            && Splits(tokens[start..], reading)
            && (parsed.image.None? ==> Read(table, tokens, start, AllUnknown(table, tokens)).image.None?)
  {
    var tokens := TokeniseCommand(command);
    ghost var start := AfterRun(tokens);
    var asSwitches: set<nat> := {};
    while true
      invariant asSwitches <= AllUnknown(table, tokens) && Switches(table, tokens, start, asSwitches) == Switches(table, tokens, start, {})
      decreases AllUnknown(table, tokens) - asSwitches
    {
      var guessed;
      parsed, guessed := ReadTokens(table, tokens, asSwitches);
      if parsed.image.Some? || guessed.None? {
        ReadingSplitsTokens(table, tokens, start, asSwitches);
        if parsed.image.None? {
          WithoutGuessesAllAreSwitches(table, tokens, start, asSwitches);
        }
        return parsed, asSwitches;
      }
      GuessIsNew(table, tokens, start, asSwitches);
      asSwitches := asSwitches + {guessed.value};
    }
  }
}
