/** The reading of every command line (contrib/getopt/getopt.c), complaints included: unknown letters
    anywhere in a word, and a last option whose argument is missing. */
module GetoptComplaints {
  import opened Common
  import opened Getopt

  // ----- what the option string says

  predicate Known(ostr: string, c: char) {
    c != ':' && c in ostr
  }

  /** Its first occurrence in the option string is followed by a colon. */
  predicate WantsArgument(ostr: string, c: char) {
    c != ':' && exists i :: 0 <= i < |ostr| - 1 && ostr[i] == c && c !in ostr[..i] && ostr[i + 1] == ':'
  }

  predicate NoneWants(ostr: string, letters: string) {
    forall i :: 0 <= i < |letters| ==> !WantsArgument(ostr, letters[i])
  }

  lemma NotBefore(s: string, n: nat, c: char)
    requires n <= |s| && c !in s[..n]
    ensures forall k :: 0 <= k < n ==> s[k] != c
  {
    forall k | 0 <= k < n
      ensures s[k] != c
    {
      assert s[..n][k] == s[k];
    }
  }

  lemma KindExactly(ostr: string, c: char)
    ensures KindOf(ostr, c) == Unknown <==> !Known(ostr, c)
    ensures KindOf(ostr, c) == WithArgument <==> WantsArgument(ostr, c)
  {
    var found := Find(ostr, c);
    if c != ':' && found.Some? {
      NotBefore(ostr, found.value, c);
      forall j | 0 <= j < |ostr| - 1 && ostr[j] == c && c !in ostr[..j]
        ensures j == found.value
      {
        NotBefore(ostr, j, c);
      }
    }
  }

  // ----- command lines, complaints included

  /** What is reported for the letter at index i: '?' for an unknown one, with optarg left as it is. */
  function LetterItem(letters: string, i: nat, ostr: string, optarg: Option<string>): Item
    requires i < |letters|
  {
    if Known(ostr, letters[i]) then Item(letters[i], letters[i], None)
    else Item('?', letters[i], AfterLetters(letters[..i], ostr, optarg))
  }

  /** A known letter without argument sets optarg to null. */
  function AfterLetters(letters: string, ostr: string, optarg: Option<string>): Option<string> {
    if exists j :: 0 <= j < |letters| && Known(ostr, letters[j]) then None else optarg
  }

  function LetterItems(letters: string, ostr: string, optarg: Option<string>): seq<Item> {
    seq(|letters|, i requires 0 <= i < |letters| => LetterItem(letters, i, ostr, optarg))
  }

  /** A word with letters of which none but the last wants an argument, and that one has it. */
  predicate Readable(w: Word, ostr: string) {
    match w
    case Solitary(extra) => '-' in ostr && (extra.Some? <==> WantsArgument(ostr, '-'))
    case Letters(letters, argument) =>
      && NoneWants(ostr, letters)
      && (argument.NoArgument? || WantsArgument(ostr, argument.letter))
      && (argument.Attached? ==> argument.value != "")
      && Print(w)[0] != "-" && Print(w)[0] != "--"
  }

  predicate AllReadable(ws: seq<Word>, ostr: string) {
    forall i :: 0 <= i < |ws| ==> Readable(ws[i], ostr)
  }

  function WordItems(w: Word, ostr: string, optarg: Option<string>): seq<Item> {
    match w
    case Solitary(extra) => [Item('-', '-', extra)]
    case Letters(letters, NoArgument) => LetterItems(letters, ostr, optarg)
    case Letters(letters, argument) =>
      LetterItems(letters, ostr, optarg) + [Item(argument.letter, argument.letter, Some(argument.value))]
  }

  function AfterWord(w: Word, ostr: string, optarg: Option<string>): Option<string> {
    match w
    case Solitary(extra) => extra
    case Letters(letters, NoArgument) => AfterLetters(letters, ostr, optarg)
    case Letters(_, argument) => Some(argument.value)
  }

  function AfterWords(ws: seq<Word>, ostr: string, optarg: Option<string>): Option<string> {
    if ws == [] then optarg else AfterWords(ws[1..], ostr, AfterWord(ws[0], ostr, optarg))
  }

  function WordsItems(ws: seq<Word>, ostr: string, optarg: Option<string>): seq<Item> {
    if ws == [] then [] else WordItems(ws[0], ostr, optarg) + WordsItems(ws[1..], ostr, AfterWord(ws[0], ostr, optarg))
  }

  /** How a command line ends: with operands, or with an option whose argument is missing, which may be a
      lone '-'. */
  datatype Ending = Operands(tail: seq<string>) | Cut(letters: string, letter: char) | CutDash

  function PrintEnding(e: Ending): seq<string> {
    match e
    case Operands(tail) => tail
    case Cut(letters, c) => ["-" + (letters + [c])]
    case CutDash => ["-"]
  }

  predicate PossibleEnding(e: Ending, ostr: string) {
    match e
    case Operands(tail) => Stops(tail, ostr)
    case Cut(letters, c) => NoneWants(ostr, letters) && WantsArgument(ostr, c) && PrintEnding(e)[0] != "--"
    case CutDash => WantsArgument(ostr, '-')
  }

  /** ':' if the option string starts with a colon, otherwise '?'. */
  function EndingItems(e: Ending, ostr: string, optarg: Option<string>): seq<Item> {
    var sign := if ostr != "" && ostr[0] == ':' then ':' else '?';
    match e
    case Operands(_) => []
    case Cut(letters, c) => LetterItems(letters, ostr, optarg) + [Item(sign, c, AfterLetters(letters, ostr, optarg))]
    case CutDash => [Item(sign, '-', optarg)]
  }

  /** Words of a command line up to the operands. */
  function WordsOfEnding(e: Ending): nat {
    if e.Operands? then (if e.tail != [] && e.tail[0] == "--" then 1 else 0) else 1
  }

  // ----- they read back

  lemma LetterItemsCons(c: char, rest: string, ostr: string, optarg: Option<string>)
    ensures var after := if Known(ostr, c) then None else optarg;
            && LetterItems([c] + rest, ostr, optarg)
               == [if Known(ostr, c) then Item(c, c, None) else Item('?', c, optarg)] + LetterItems(rest, ostr, after)
            && AfterLetters([c] + rest, ostr, optarg) == AfterLetters(rest, ostr, after)
  {
    var letters, after := [c] + rest, if Known(ostr, c) then None else optarg;
    AfterCons(c, rest, ostr, optarg);
    forall i | 0 <= i < |rest|
      ensures LetterItem(letters, i + 1, ostr, optarg) == LetterItem(rest, i, ostr, after)
    {
      assert letters[..i + 1] == [c] + rest[..i];
      AfterCons(c, rest[..i], ostr, optarg);
    }
    assert letters[..0] == "";
  }

  lemma AfterCons(c: char, rest: string, ostr: string, optarg: Option<string>)
    ensures AfterLetters([c] + rest, ostr, optarg)
         == AfterLetters(rest, ostr, if Known(ostr, c) then None else optarg)
  {
    var letters := [c] + rest;
    if j :| 0 <= j < |rest| && Known(ostr, rest[j]) {
      assert letters[j + 1] == rest[j];
    } else {
      assert forall j :: 0 < j < |letters| ==> letters[j] == rest[j - 1];
      assert letters[0] == c;
    }
  }

  lemma {:induction false} LettersRead(argv: seq<string>, ostr: string, next: nat, letters: string, rest: string,
                                       optarg: Option<string>)
    requires NoneWants(ostr, letters)
    ensures ReadLetters(argv, ostr, next, letters + rest, optarg)
         == Prepend(LetterItems(letters, ostr, optarg),
                    ReadLetters(argv, ostr, next, rest, AfterLetters(letters, ostr, optarg)))
    decreases |letters|
  {
    if letters == "" {
      assert letters + rest == rest;
    } else {
      var c, others := letters[0], letters[1..];
      var after := if Known(ostr, c) then None else optarg;
      KindExactly(ostr, c);
      assert (letters + rest)[1..] == others + rest && letters == [c] + others;
      LettersRead(argv, ostr, next, others, rest, after);
      LetterItemsCons(c, others, ostr, optarg);
    }
  }

  /** One word, whatever surrounds it. */
  lemma WordReads(argv: seq<string>, ostr: string, i: nat, w: Word, optarg: Option<string>)
    requires Readable(w, ostr) && Occur(argv, i, Print(w))
    ensures ReadWords(argv, ostr, i, optarg)
         == Prepend(WordItems(w, ostr, optarg), ReadWords(argv, ostr, i + |Print(w)|, AfterWord(w, ostr, optarg)))
  {
    assert argv[i] == Print(w)[0];
    match w
    case Solitary(extra) =>
      KindExactly(ostr, '-');
      SolitaryReads(argv, ostr, i, extra, optarg);
    case Letters(letters, NoArgument) =>
      assert argv[i][1..] == letters + "";
      LettersRead(argv, ostr, i + 1, letters, "", optarg);
    case Letters(letters, Attached(c, value)) =>
      assert argv[i][1..] == letters + ([c] + value);
      LettersRead(argv, ostr, i + 1, letters, [c] + value, optarg);
      KindExactly(ostr, c);
      assert ([c] + value)[1..] == value;
      LastItem(LetterItems(letters, ostr, optarg), Item(c, c, Some(value)), ReadWords(argv, ostr, i + 1, Some(value)));
    case Letters(letters, Detached(c, value)) =>
      assert argv[i][1..] == letters + [c];
      LettersRead(argv, ostr, i + 1, letters, [c], optarg);
      KindExactly(ostr, c);
      assert argv[i + 1] == value;
      LastItem(LetterItems(letters, ostr, optarg), Item(c, c, Some(value)), ReadWords(argv, ostr, i + 2, Some(value)));
  }

  lemma {:induction false} WordsRead(argv: seq<string>, ostr: string, i: nat, ws: seq<Word>, optarg: Option<string>,
                                     after: Reading)
    requires AllReadable(ws, ostr) && Occur(argv, i, PrintAll(ws))
    requires after == ReadWords(argv, ostr, i + |PrintAll(ws)|, AfterWords(ws, ostr, optarg))
    ensures ReadWords(argv, ostr, i, optarg) == Prepend(WordsItems(ws, ostr, optarg), after)
    decreases |ws|
  {
    if ws != [] {
      var w, rest := ws[0], ws[1..];
      var j, optarg' := i + |Print(w)|, AfterWord(w, ostr, optarg);
      OccurTogether(argv, i, Print(w), PrintAll(rest));
      WordsRead(argv, ostr, j, rest, optarg', after);
      FirstReads(argv, ostr, i, w, optarg, WordsItems(rest, ostr, optarg'), after);
    }
  }

  lemma FirstReads(argv: seq<string>, ostr: string, i: nat, w: Word, optarg: Option<string>, items: seq<Item>,
                   after: Reading)
    requires Readable(w, ostr) && Occur(argv, i, Print(w))
    requires ReadWords(argv, ostr, i + |Print(w)|, AfterWord(w, ostr, optarg)) == Prepend(items, after)
    ensures ReadWords(argv, ostr, i, optarg) == Prepend(WordItems(w, ostr, optarg) + items, after)
  {
    WordReads(argv, ostr, i, w, optarg);
    PrependConcat(WordItems(w, ostr, optarg), items, after);
  }

  lemma EndingReads(argv: seq<string>, ostr: string, i: nat, e: Ending, optarg: Option<string>)
    requires i <= |argv| && PossibleEnding(e, ostr) && argv[i..] == PrintEnding(e)
    ensures ReadWords(argv, ostr, i, optarg) == Prepend(EndingItems(e, ostr, optarg), Done(i + WordsOfEnding(e)))
  {
    match e
    case Operands(tail) =>
      assert i < |argv| ==> argv[i] == tail[0];
      StopsReading(argv, ostr, i, optarg);
    case Cut(letters, c) =>
      assert argv[i] == argv[i..][0] && |argv| == i + 1;
      assert argv[i][1..] == letters + [c];
      LettersRead(argv, ostr, i + 1, letters, [c], optarg);
      KindExactly(ostr, c);
      var after := AfterLetters(letters, ostr, optarg);
      LastItem(LetterItems(letters, ostr, optarg), Item(Missing(ostr), c, after), Done(i + 1));
    case CutDash =>
      assert argv[i] == argv[i..][0] && |argv| == i + 1;
      KindExactly(ostr, '-');
      assert "-"[0] == '-' && "-"[1..] == "";
      assert ReadWords(argv, ostr, i, optarg) == ReadLetters(argv, ostr, i + 1, "-", optarg);
      var item := Item(Missing(ostr), '-', optarg);
      assert ReadLetters(argv, ostr, i + 1, "-", optarg) == More(item, Done(i + 1));
      assert EndingItems(e, ostr, optarg) == [] + [item];
      LastItem([], item, Done(i + 1));
  }

  /** Main result: every command line made of words, whose letters may be unknown, and an ending, whose
      argument may be missing, reads as its items, and optind is left behind what was read. */
  lemma LineReads(argv: seq<string>, program: string, ws: seq<Word>, e: Ending, ostr: string)
    requires AllReadable(ws, ostr) && PossibleEnding(e, ostr)
    requires argv == [program] + PrintAll(ws) + PrintEnding(e)
    ensures var r := ReadWords(argv, ostr, 1, None);
            && Items(r) == WordsItems(ws, ostr, None) + EndingItems(e, ostr, AfterWords(ws, ostr, None))
            && FirstOperand(r) == 1 + |PrintAll(ws)| + WordsOfEnding(e)
  {
    var n, optarg := 1 + |PrintAll(ws)|, AfterWords(ws, ostr, None);
    assert argv[1..n] == PrintAll(ws) && argv[n..] == PrintEnding(e);
    EndingReads(argv, ostr, n, e, optarg);
    var items, optind := EndingItems(e, ostr, optarg), n + WordsOfEnding(e);
    WordsRead(argv, ostr, 1, ws, None, Prepend(items, Done(optind)));
    Together(WordsItems(ws, ostr, None), items, optind);
  }

  lemma Together(items: seq<Item>, more: seq<Item>, optind: nat)
    ensures Items(Prepend(items, Prepend(more, Done(optind)))) == items + more
    ensures FirstOperand(Prepend(items, Prepend(more, Done(optind)))) == optind
  {
    PrependItems(more, Done(optind));
    PrependItems(items, Prepend(more, Done(optind)));
  }

  // ----- and every command line is one of them

  lemma {:induction false} FirstThatWants(ostr: string, letters: string) returns (i: nat)
    ensures i <= |letters| && NoneWants(ostr, letters[..i])
    ensures i < |letters| ==> WantsArgument(ostr, letters[i])
    decreases |letters|
  {
    if letters == "" || WantsArgument(ostr, letters[0]) {
      i := 0;
    } else {
      var j := FirstThatWants(ostr, letters[1..]);
      i := j + 1;
      assert forall k :: 0 < k < i ==> letters[k] == letters[1..][..j][k - 1];
    }
  }

  /** The word at i, with the argument behind it if it takes one; or the ending, if there is none. */
  lemma WordAt(argv: seq<string>, ostr: string, i: nat) returns (w: Option<Word>, e: Ending)
    requires i < |argv| && !Stops(argv[i..], ostr)
    ensures w.Some? ==> Readable(w.value, ostr) && Occur(argv, i, Print(w.value))
    ensures w == None ==> PossibleEnding(e, ostr) && argv[i..] == PrintEnding(e)
  {
    assert argv[i..][0] == argv[i];
    w, e := None, CutDash;
    if argv[i] == "-" {
      if !WantsArgument(ostr, '-') {
        w := Some(Solitary(None));
      } else if i + 1 < |argv| {
        w := Some(Solitary(Some(argv[i + 1])));
      }
    } else {
      var letters := argv[i][1..];
      var n := FirstThatWants(ostr, letters);
      if n == |letters| {
        assert letters[..n] == letters;
        w := Some(Letters(letters, NoArgument));
        assert Print(w.value)[0] == argv[i];
      } else {
        var flags, c, rest := letters[..n], letters[n], letters[n + 1..];
        assert letters == flags + ([c] + rest);
        if rest != "" {
          w := Some(Letters(flags, Attached(c, rest)));
          assert Print(w.value)[0] == argv[i];
        } else {
          assert letters == flags + [c] && "-" + letters == argv[i];
          if i + 1 < |argv| {
            w := Some(Letters(flags, Detached(c, argv[i + 1])));
            assert Print(w.value)[0] == argv[i];
          } else {
            e := Cut(flags, c);
          }
        }
      }
    }
  }

  lemma WordInFront(argv: seq<string>, i: nat, w: Word, rest: seq<Word>, e: Ending)
    requires Occur(argv, i, Print(w)) && argv[i + |Print(w)|..] == PrintAll(rest) + PrintEnding(e)
    ensures argv[i..] == PrintAll([w] + rest) + PrintEnding(e)
  {
    var n := i + |Print(w)|;
    assert ([w] + rest)[1..] == rest && argv[i..] == argv[i..n] + argv[n..];
  }

  lemma {:induction false} LineFrom(argv: seq<string>, ostr: string, i: nat) returns (ws: seq<Word>, e: Ending)
    requires i <= |argv|
    ensures AllReadable(ws, ostr) && PossibleEnding(e, ostr) && argv[i..] == PrintAll(ws) + PrintEnding(e)
    decreases |argv| - i
  {
    if Stops(argv[i..], ostr) {
      ws, e := [], Operands(argv[i..]);
    } else {
      var w;
      w, e := WordAt(argv, ostr, i);
      if w == None {
        ws := [];
      } else {
        var n := i + |Print(w.value)|;
        var rest;
        rest, e := LineFrom(argv, ostr, n);
        ws := [w.value] + rest;
        WordInFront(argv, i, w.value, rest, e);
      }
    }
  }

  /** Main result, the converse: there are no other command lines, so this says what getopt reports on each. */
  lemma EveryLineIsOne(argv: seq<string>, ostr: string) returns (ws: seq<Word>, e: Ending)
    requires argv != []
    ensures AllReadable(ws, ostr) && PossibleEnding(e, ostr)
    ensures argv == [argv[0]] + PrintAll(ws) + PrintEnding(e)
  {
    ws, e := LineFrom(argv, ostr, 1);
    assert argv == [argv[0]] + argv[1..];
  }
}
