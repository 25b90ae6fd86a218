/** The command line parser (contrib/getopt/getopt.c): a function that remembers where it is between
    calls, against a recursive description of how a command line reads. */
module Getopt {
  import opened Common

  // ----- how a command line reads

  /** What one call reports: its result, the letter it looked at, and optarg afterwards. */
  datatype Item = Item(result: char, optopt: char, optarg: Option<string>)

  /** All that is still to be reported, ending with the index of the first operand. */
  datatype Reading = Done(optind: nat) | More(item: Item, rest: Reading)

  datatype Kind = Unknown | Flag | WithArgument

  /** strchr(ostr, c) as an index. */
  function Find(ostr: string, c: char): (r: Option<nat>)
    ensures r.Some? <==> c in ostr
    ensures r.Some? ==> r.value < |ostr| && ostr[r.value] == c && c !in ostr[..r.value]
  {
    if ostr == "" then None
    else if ostr[0] == c then Some(0)
    else
      var r := Find(ostr[1..], c);
      assert r.Some? ==> ostr[..r.value + 1] == [ostr[0]] + ostr[1..][..r.value];
      if r.Some? then Some(r.value + 1) else None
  }

  /** What the option string says about a letter. */
  function KindOf(ostr: string, c: char): Kind {
    if c == ':' then Unknown
    else match Find(ostr, c)
      case None => Unknown
      case Some(i) => if i + 1 < |ostr| && ostr[i + 1] == ':' then WithArgument else Flag
  }

  /** The answer to a missing argument. */
  function Missing(ostr: string): char {
    if |ostr| > 0 && ostr[0] == ':' then ':' else '?'
  }

  /** Reading from the start of word i.  optarg is what an earlier option left there. */
  function ReadWords(argv: seq<string>, ostr: string, i: nat, optarg: Option<string>): Reading
    decreases |argv| - i, 0, 0
  {
    if i >= |argv| || |argv[i]| == 0 || argv[i][0] != '-' then Done(i)
    else if argv[i] == "--" then Done(i + 1)
    else if argv[i] == "-" then
      if '-' in ostr then ReadLetters(argv, ostr, i + 1, "-", optarg) else Done(i)
    else ReadLetters(argv, ostr, i + 1, argv[i][1..], optarg)
  }

  /** Reading the rest of an option word, next being the index of the word after it. */
  function ReadLetters(argv: seq<string>, ostr: string, next: nat, letters: string, optarg: Option<string>): Reading
    decreases |argv| - next, 1, |letters|
  {
    if letters == "" then ReadWords(argv, ostr, next, optarg)
    else
      var c, rest := letters[0], letters[1..];
      match KindOf(ostr, c)
      case Unknown => More(Item('?', c, optarg), ReadLetters(argv, ostr, next, rest, optarg))
      case Flag => More(Item(c, c, None), ReadLetters(argv, ostr, next, rest, None))
      case WithArgument =>
        if rest != "" then More(Item(c, c, Some(rest)), ReadWords(argv, ostr, next, Some(rest)))
        else if next < |argv| then
          More(Item(c, c, Some(argv[next])), ReadWords(argv, ostr, next + 1, Some(argv[next])))
        else More(Item(Missing(ostr), c, optarg), ReadWords(argv, ostr, next, optarg))
  }

  function Items(r: Reading): seq<Item> {
    match r
    case Done(_) => []
    case More(item, rest) => [item] + Items(rest)
  }

  function FirstOperand(r: Reading): nat {
    match r
    case Done(optind) => optind
    case More(_, rest) => FirstOperand(rest)
  }

  // ----- the resumable parser

  class Parser {
    var optind: nat
    var optopt: Option<char>          // None is the NUL character
    var optreset: bool
    var optarg: Option<string>        // None is NULL
    var place: string                 // what is left of the current word

    constructor ()
      ensures optind == 1 && !optreset && optarg == None && place == ""
    {
      optind, optopt, optreset, optarg, place := 1, None, false, None, "";
    }

    /** The word being read exists. */
    predicate Valid(argv: seq<string>)
      reads this
    {
      optind <= |argv| && (!optreset && place != "" ==> optind < |argv|)
    }

    /** What the calls from here on have to report. */
    ghost function Remaining(argv: seq<string>, ostr: string): Reading
      reads this
    {
      if optreset || place == "" then ReadWords(argv, ostr, optind, optarg)
      else ReadLetters(argv, ostr, optind + 1, place, optarg)
    }

    /** getopt */
    method Getopt(argv: seq<string>, ostr: string) returns (result: Option<char>)
      requires Valid(argv)
      modifies this
      ensures Valid(argv) && !optreset
      ensures match old(Remaining(argv, ostr))
              case Done(n) => result == None && optind == n && place == "" && optarg == old(optarg)
              case More(item, rest) =>
                && result == Some(item.result) && optopt == Some(item.optopt) && optarg == item.optarg
                && Remaining(argv, ostr) == rest
      ensures result == None ==>
        optopt == if old(optind) >= |argv| || argv[old(optind)] == "" || argv[old(optind)][0] != '-' then old(optopt)
                  else if argv[old(optind)] == "--" then Some('-') else None
    {
      if optreset || place == "" {
        optreset := false;
        if optind >= |argv| || argv[optind] == "" || argv[optind][0] != '-' {
          place := "";
          return None;
        }
        if argv[optind] == "-" {
          optopt := None;
          place := "";
          if Find(ostr, '-') == None {
            return None;
          }
          optopt := Some('-');
          assert ['-'] + place == "-";
        } else {
          assert argv[optind][1..] == [argv[optind][1]] + argv[optind][2..];
          optopt := Some(argv[optind][1]);
          place := argv[optind][2..];
          if optopt == Some('-') && place == "" {
            assert argv[optind] == "--";
            optind := optind + 1;
            return None;
          }
        }
      } else {
        assert place == [place[0]] + place[1..];
        optopt := Some(place[0]);
        place := place[1..];
      }
      result := Letter(argv, ostr);
    }

    /** The second half of getopt, once optopt holds a letter. */
    method Letter(argv: seq<string>, ostr: string) returns (result: Option<char>)
      requires optind < |argv| && optopt.Some? && !optreset
      modifies this
      ensures Valid(argv) && !optreset
      ensures match old(ReadLetters(argv, ostr, optind + 1, [optopt.value] + place, optarg))
              case Done(n) => false
              case More(item, rest) =>
                && result == Some(item.result) && optopt == Some(item.optopt) && optarg == item.optarg
                && Remaining(argv, ostr) == rest
    {
      var letter := optopt.value;
      assert ([letter] + place)[1..] == place;
      var oli := Find(ostr, letter);
      if letter == ':' || oli == None {
        if place == "" {
          optind := optind + 1;
        }
        return Some('?');
      }
      if oli.value + 1 == |ostr| || ostr[oli.value + 1] != ':' {
        optarg := None;
        if place == "" {
          optind := optind + 1;
        }
      } else {
        if place != "" {
          optarg := Some(place);
        } else {
          optind := optind + 1;
          if |argv| > optind {
            optarg := Some(argv[optind]);
          } else {
            place := "";
            return Some(if |ostr| > 0 && ostr[0] == ':' then ':' else '?');
          }
        }
        place := "";
        optind := optind + 1;
      }
      return optopt;
    }
  }

  /** The loop every caller runs, `while ((opt = getopt(...)) != -1)`: it ends, and it has seen what the
      command line reads, each report once and in order. */
  method ReadCommandLine(argv: seq<string>, ostr: string) returns (items: seq<Item>, optind: nat)
    requires argv != []
    ensures items == Items(ReadWords(argv, ostr, 1, None))
    ensures optind == FirstOperand(ReadWords(argv, ostr, 1, None))
  {
    var p := new Parser();
    items := [];
    var result := p.Getopt(argv, ostr);
    ghost var all := ReadWords(argv, ostr, 1, None);
    ghost var rest := all;
    while result != None
      invariant fresh(p) && p.Valid(argv) && !p.optreset
      invariant items + Items(rest) == Items(all) && FirstOperand(rest) == FirstOperand(all)
      invariant match rest
                case Done(n) => result == None && p.optind == n
                case More(item, after) =>
                  && result == Some(item.result) && p.optopt == Some(item.optopt) && p.optarg == item.optarg
                  && p.Remaining(argv, ostr) == after
      decreases rest
    {
      items := items + [Item(result.value, p.optopt.value, p.optarg)];
      rest := rest.rest;
      result := p.Getopt(argv, ostr);
    }
    optind := p.optind;
  }

  // ----- printing options so that they read back

  datatype Argument = NoArgument | Attached(letter: char, value: string) | Detached(letter: char, value: string)

  /** One option word with the argument that may follow it.  Solitary is a lone '-'. */
  datatype Word = Letters(flags: string, argument: Argument) | Solitary(extra: Option<string>)

  function Print(w: Word): seq<string> {
    match w
    case Solitary(None) => ["-"]
    case Solitary(Some(value)) => ["-", value]
    case Letters(flags, NoArgument) => ["-" + flags]
    case Letters(flags, Attached(c, value)) => ["-" + (flags + ([c] + value))]
    case Letters(flags, Detached(c, value)) => ["-" + (flags + [c]), value]
  }

  /** The options a word stands for. */
  function Meaning(w: Word): seq<Item> {
    match w
    case Solitary(extra) => [Item('-', '-', extra)]
    case Letters(flags, NoArgument) => FlagItems(flags)
    case Letters(flags, Attached(c, value)) => FlagItems(flags) + [Item(c, c, Some(value))]
    case Letters(flags, Detached(c, value)) => FlagItems(flags) + [Item(c, c, Some(value))]
  }

  function FlagItems(flags: string): seq<Item> {
    if flags == "" then [] else [Item(flags[0], flags[0], None)] + FlagItems(flags[1..])
  }

  predicate AreFlags(flags: string, ostr: string) {
    forall i :: 0 <= i < |flags| ==> KindOf(ostr, flags[i]) == Flag
  }

  /** Letters used as the option string declares them, an attached argument that is not empty, and a
      word that cannot be mistaken for "--" or "-". */
  predicate WellFormed(w: Word, ostr: string) {
    match w
    case Solitary(extra) => KindOf(ostr, '-') == if extra == None then Flag else WithArgument
    case Letters(flags, argument) =>
      && AreFlags(flags, ostr)
      && (argument.NoArgument? || KindOf(ostr, argument.letter) == WithArgument)
      && (argument.Attached? ==> argument.value != "")
      && Print(w)[0] != "-" && Print(w)[0] != "--"
  }

  predicate AllWellFormed(ws: seq<Word>, ostr: string) {
    forall i :: 0 <= i < |ws| ==> WellFormed(ws[i], ostr)
  }

  function PrintAll(ws: seq<Word>): seq<string> {
    if ws == [] then [] else Print(ws[0]) + PrintAll(ws[1..])
  }

  function Meanings(ws: seq<Word>): seq<Item> {
    if ws == [] then [] else Meaning(ws[0]) + Meanings(ws[1..])
  }

  function Prepend(items: seq<Item>, r: Reading): Reading {
    if items == [] then r else More(items[0], Prepend(items[1..], r))
  }

  lemma {:induction false} PrependItems(items: seq<Item>, r: Reading)
    ensures Items(Prepend(items, r)) == items + Items(r)
    ensures FirstOperand(Prepend(items, r)) == FirstOperand(r)
    decreases |items|
  {
    if items != [] {
      PrependItems(items[1..], r);
    }
  }

  lemma {:induction false} PrependConcat(a: seq<Item>, b: seq<Item>, r: Reading)
    ensures Prepend(a + b, r) == Prepend(a, Prepend(b, r))
    decreases |a|
  {
    if a == [] {
      assert a + b == b;
    } else {
      assert (a + b)[1..] == a[1..] + b;
      PrependConcat(a[1..], b, r);
    }
  }

  lemma {:induction false} FlagsRead(argv: seq<string>, ostr: string, next: nat, flags: string, rest: string,
                                     optarg: Option<string>)
    requires AreFlags(flags, ostr)
    ensures ReadLetters(argv, ostr, next, flags + rest, optarg)
         == Prepend(FlagItems(flags), ReadLetters(argv, ostr, next, rest, if flags == "" then optarg else None))
    decreases |flags|
  {
    if flags == "" {
      assert flags + rest == rest;
    } else {
      assert (flags + rest)[1..] == flags[1..] + rest;
      FlagsRead(argv, ostr, next, flags[1..], rest, None);
    }
  }

  /** optarg after a word has been read. */
  function ArgumentOf(w: Word): Option<string> {
    match w
    case Solitary(extra) => extra
    case Letters(_, NoArgument) => None
    case Letters(_, argument) => Some(argument.value)
  }

  /** The words stand in the command line from index i on. */
  predicate Occur(argv: seq<string>, i: nat, words: seq<string>) {
    i + |words| <= |argv| && argv[i..i + |words|] == words
  }

  /** A printed word reads back as what it stands for, whatever surrounds it. */
  lemma WordReads(argv: seq<string>, ostr: string, i: nat, w: Word, optarg: Option<string>)
    requires WellFormed(w, ostr) && Occur(argv, i, Print(w))
    ensures ReadWords(argv, ostr, i, optarg)
         == Prepend(Meaning(w), ReadWords(argv, ostr, i + |Print(w)|, ArgumentOf(w)))
  {
    assert argv[i] == Print(w)[0];
    if w.Letters? {
      var letters := argv[i][1..];
      match w.argument
      case NoArgument =>
        assert letters == w.flags + "";
        FlagsRead(argv, ostr, i + 1, w.flags, "", optarg);
      case Attached(c, value) =>
        assert letters == w.flags + ([c] + value);
        FlagsRead(argv, ostr, i + 1, w.flags, [c] + value, optarg);
        assert ([c] + value)[1..] == value;
        LastItem(FlagItems(w.flags), Item(c, c, Some(value)), ReadWords(argv, ostr, i + 1, Some(value)));
      case Detached(c, value) =>
        assert letters == w.flags + [c];
        FlagsRead(argv, ostr, i + 1, w.flags, [c], optarg);
        assert argv[i + 1] == value;
        LastItem(FlagItems(w.flags), Item(c, c, Some(value)), ReadWords(argv, ostr, i + 2, Some(value)));
    } else {
      SolitaryReads(argv, ostr, i, w.extra, optarg);
    }
  }

  lemma SolitaryReads(argv: seq<string>, ostr: string, i: nat, extra: Option<string>, optarg: Option<string>)
    requires WellFormed(Solitary(extra), ostr)
    requires i < |argv| && argv[i] == "-"
    requires extra.Some? ==> i + 1 < |argv| && argv[i + 1] == extra.value
    ensures ReadWords(argv, ostr, i, optarg)
         == More(Item('-', '-', extra), ReadWords(argv, ostr, i + (if extra.Some? then 2 else 1), extra))
  {
    assert "-"[0] == '-' && "-"[1..] == "";
    assert ReadWords(argv, ostr, i, optarg) == ReadLetters(argv, ostr, i + 1, "-", optarg);
    assert ReadLetters(argv, ostr, i + 1, "", None) == ReadWords(argv, ostr, i + 1, None);
  }

  lemma LastItem(items: seq<Item>, item: Item, r: Reading)
    ensures Prepend(items + [item], r) == Prepend(items, More(item, r))
  {
    PrependConcat(items, [item], r);
    assert Prepend([item], r) == More(item, r);
  }

  function LastArgument(ws: seq<Word>, optarg: Option<string>): Option<string> {
    if ws == [] then optarg else LastArgument(ws[1..], ArgumentOf(ws[0]))
  }

  lemma OccurTogether(argv: seq<string>, i: nat, a: seq<string>, b: seq<string>)
    ensures Occur(argv, i, a + b) <==> Occur(argv, i, a) && Occur(argv, i + |a|, b)
  {
    var n := i + |a + b|;
    if n <= |argv| {
      var whole := argv[i..n];
      assert argv[i..i + |a|] == whole[..|a|] && argv[i + |a|..n] == whole[|a|..];
      assert (a + b)[..|a|] == a && (a + b)[|a|..] == b;
      assert whole == whole[..|a|] + whole[|a|..];
    }
  }

  /** Printed words read back one after the other, up to whatever the rest reads as. */
  lemma {:induction false} WordsRead(argv: seq<string>, ostr: string, i: nat, ws: seq<Word>, optarg: Option<string>,
                                     after: Reading)
    requires AllWellFormed(ws, ostr) && Occur(argv, i, PrintAll(ws))
    requires after == ReadWords(argv, ostr, i + |PrintAll(ws)|, LastArgument(ws, optarg))
    ensures ReadWords(argv, ostr, i, optarg) == Prepend(Meanings(ws), after)
    decreases |ws|
  {
    if ws != [] {
      var w, rest := ws[0], ws[1..];
      var j := i + |Print(w)|;
      OccurTogether(argv, i, Print(w), PrintAll(rest));
      WordsRead(argv, ostr, j, rest, ArgumentOf(w), after);
      FirstWordReads(argv, ostr, i, w, optarg, Meanings(rest), after);
    }
  }

  lemma FirstWordReads(argv: seq<string>, ostr: string, i: nat, w: Word, optarg: Option<string>,
                       items: seq<Item>, after: Reading)
    requires WellFormed(w, ostr) && Occur(argv, i, Print(w))
    requires ReadWords(argv, ostr, i + |Print(w)|, ArgumentOf(w)) == Prepend(items, after)
    ensures ReadWords(argv, ostr, i, optarg) == Prepend(Meaning(w) + items, after)
  {
    WordReads(argv, ostr, i, w, optarg);
    PrependConcat(Meaning(w), items, after);
  }

  /** Where reading stops at once. */
  predicate Stops(tail: seq<string>, ostr: string) {
    || tail == [] || tail[0] == "" || tail[0][0] != '-'
    || tail[0] == "--"
    || (tail[0] == "-" && '-' !in ostr)
  }

  lemma StopsReading(argv: seq<string>, ostr: string, i: nat, optarg: Option<string>)
    requires i <= |argv| && Stops(argv[i..], ostr)
    ensures ReadWords(argv, ostr, i, optarg) == Done(i + (if i < |argv| && argv[i] == "--" then 1 else 0))
  {
    assert i < |argv| ==> argv[i..][0] == argv[i];
  }

  /** Word i is where the options ws are printed, and reading stops behind them. */
  predicate PrintedAt(argv: seq<string>, i: nat, ws: seq<Word>, ostr: string) {
    && Occur(argv, i, PrintAll(ws))
    && Stops(argv[i + |PrintAll(ws)|..], ostr)
  }

  lemma PrintedReads(argv: seq<string>, i: nat, ws: seq<Word>, ostr: string, optarg: Option<string>)
    requires AllWellFormed(ws, ostr) && PrintedAt(argv, i, ws, ostr)
    ensures var r := ReadWords(argv, ostr, i, optarg);
            var n := i + |PrintAll(ws)|;
            && Items(r) == Meanings(ws)
            && FirstOperand(r) == n + (if n < |argv| && argv[n] == "--" then 1 else 0)
  {
    var n, last := i + |PrintAll(ws)|, LastArgument(ws, optarg);
    var after := ReadWords(argv, ostr, n, last);
    WordsRead(argv, ostr, i, ws, optarg, after);
    StopsReading(argv, ostr, n, last);
    PrependItems(Meanings(ws), after);
  }

  /** Main result, round trip: whatever options are printed, in whatever clusters, and whatever operands
      follow, getopt returns exactly these options and leaves optind at the first operand. */
  lemma RoundTrip(argv: seq<string>, program: string, ws: seq<Word>, tail: seq<string>, ostr: string)
    requires AllWellFormed(ws, ostr) && Stops(tail, ostr)
    requires argv == [program] + PrintAll(ws) + tail
    ensures var r := ReadWords(argv, ostr, 1, None);
            && Items(r) == Meanings(ws)
            && FirstOperand(r) <= |argv|
            && argv[FirstOperand(r)..] == if tail != [] && tail[0] == "--" then tail[1..] else tail
  {
    var n := 1 + |PrintAll(ws)|;
    assert argv[1..n] == PrintAll(ws);
    assert argv[n..] == tail;
    assert tail != [] ==> argv[n] == tail[0] && argv[n + 1..] == tail[1..];
    PrintedReads(argv, 1, ws, ostr, None);
  }

  // ----- clustering does not matter

  /** A word with its letters taken apart. */
  function Split(w: Word): seq<Word> {
    match w
    case Solitary(_) => [w]
    case Letters(flags, argument) =>
      SplitFlags(flags) + (if argument.NoArgument? then [] else [Letters("", argument)])
  }

  function SplitFlags(flags: string): seq<Word> {
    if flags == "" then [] else [Letters(flags[..1], NoArgument)] + SplitFlags(flags[1..])
  }

  function SplitAll(ws: seq<Word>): seq<Word> {
    if ws == [] then [] else Split(ws[0]) + SplitAll(ws[1..])
  }

  lemma {:induction false} MeaningsConcat(a: seq<Word>, b: seq<Word>)
    ensures Meanings(a + b) == Meanings(a) + Meanings(b)
    decreases |a|
  {
    if a == [] {
      assert a + b == b;
    } else {
      assert (a + b)[1..] == a[1..] + b;
      MeaningsConcat(a[1..], b);
    }
  }

  lemma FlagWord(c: char, ostr: string)
    requires KindOf(ostr, c) == Flag && c != '-'
    ensures Meaning(Letters([c], NoArgument)) == [Item(c, c, None)] && WellFormed(Letters([c], NoArgument), ostr)
  {
    assert [c][1..] == "";
    assert FlagItems([c]) == [Item(c, c, None)] + FlagItems("");
    assert ("-" + [c])[1] == c;
  }

  lemma {:induction false} SplitFlagsKeep(flags: string, ostr: string)
    requires AreFlags(flags, ostr) && '-' !in flags
    ensures Meanings(SplitFlags(flags)) == FlagItems(flags) && AllWellFormed(SplitFlags(flags), ostr)
    decreases |flags|
  {
    if flags != "" {
      SplitFlagsKeep(flags[1..], ostr);
      FlagWord(flags[0], ostr);
      assert flags[..1] == [flags[0]];
    }
  }

  /** No '-' among the letters of a word. */
  predicate WithoutDash(w: Word) {
    w.Letters? ==> '-' !in w.flags && (w.argument.NoArgument? || w.argument.letter != '-')
  }

  lemma ArgumentWord(argument: Argument, ostr: string)
    requires !argument.NoArgument? && argument.letter != '-' && KindOf(ostr, argument.letter) == WithArgument
    requires argument.Attached? ==> argument.value != ""
    ensures Meanings([Letters("", argument)]) == [Item(argument.letter, argument.letter, Some(argument.value))]
    ensures WellFormed(Letters("", argument), ostr)
  {
    var w := Letters("", argument);
    assert Meanings([w]) == Meaning(w) + Meanings([]);
    assert Print(w)[0][1] == argument.letter;
  }

  lemma SplitKeeps(w: Word, ostr: string)
    requires WellFormed(w, ostr) && WithoutDash(w)
    ensures Meanings(Split(w)) == Meaning(w) && AllWellFormed(Split(w), ostr)
  {
    match w
    case Solitary(_) =>
      assert Meanings([w]) == Meaning(w) + Meanings([]);
    case Letters(flags, argument) =>
      SplitFlagsKeep(flags, ostr);
      if argument.NoArgument? {
        assert Split(w) == SplitFlags(flags);
      } else {
        ArgumentWord(argument, ostr);
        MeaningsConcat(SplitFlags(flags), [Letters("", argument)]);
      }
  }

  lemma {:induction false} SplitAllKeeps(ws: seq<Word>, ostr: string)
    requires AllWellFormed(ws, ostr) && (forall i :: 0 <= i < |ws| ==> WithoutDash(ws[i]))
    ensures AllWellFormed(SplitAll(ws), ostr) && Meanings(SplitAll(ws)) == Meanings(ws)
    decreases |ws|
  {
    if ws != [] {
      SplitKeeps(ws[0], ostr);
      SplitAllKeeps(ws[1..], ostr);
      MeaningsConcat(Split(ws[0]), SplitAll(ws[1..]));
    }
  }

  /** Main result: the same options given one letter a word read the same, with the same operands. */
  lemma ClusteringIsImmaterial(argv: seq<string>, split: seq<string>, program: string, ws: seq<Word>,
                               tail: seq<string>, ostr: string)
    requires AllWellFormed(ws, ostr) && (forall i :: 0 <= i < |ws| ==> WithoutDash(ws[i])) && Stops(tail, ostr)
    requires argv == [program] + PrintAll(ws) + tail
    requires split == [program] + PrintAll(SplitAll(ws)) + tail
    ensures var r, s := ReadWords(argv, ostr, 1, None), ReadWords(split, ostr, 1, None);
            && Items(r) == Items(s)
            && FirstOperand(r) <= |argv| && FirstOperand(s) <= |split|
            && argv[FirstOperand(r)..] == split[FirstOperand(s)..]
  {
    SplitAllKeeps(ws, ostr);
    RoundTrip(argv, program, ws, tail, ostr);
    RoundTrip(split, program, SplitAll(ws), tail, ostr);
  }

  // ----- what reads without complaint was printed

  predicate Clean(items: seq<Item>) {
    forall i :: 0 <= i < |items| ==> items[i].result != '?' && items[i].result != ':'
  }

  lemma CleanRest(r: Reading)
    requires r.More? && Clean(Items(r))
    ensures Clean(Items(r.rest)) && r.item.result != '?' && r.item.result != ':'
  {
    assert Items(r)[0] == r.item;
    assert forall i :: 0 <= i < |Items(r.rest)| ==> Items(r.rest)[i] == Items(r)[i + 1];
  }

  /** One more flag in front of a word. */
  lemma WithFlag(c: char, v: Word, rest: string) returns (w: Word)
    requires v.Letters? && Print(v)[0] == "-" + rest
    ensures w == Letters([c] + v.flags, v.argument)
    ensures |Print(w)| == |Print(v)| && Print(w)[0] == "-" + ([c] + rest) && Print(w)[1..] == Print(v)[1..]
    ensures ArgumentOf(v) == ArgumentOf(w) || v.argument.NoArgument?
  {
    w := Letters([c] + v.flags, v.argument);
    assert Print(v)[0][1..] == rest;
    assert Print(w)[0] == "-" + ([c] + Print(v)[0][1..]);
  }

  /** From a word that reads without complaint, the word that was printed. */
  lemma {:induction false} RecoverWord(argv: seq<string>, ostr: string, next: nat, letters: string,
                                       optarg: Option<string>)
    returns (w: Word)
    requires letters != "" && Clean(Items(ReadLetters(argv, ostr, next, letters, optarg)))
    ensures w.Letters? && AreFlags(w.flags, ostr)
    ensures w.argument.NoArgument? || KindOf(ostr, w.argument.letter) == WithArgument
    ensures w.argument.Attached? ==> w.argument.value != ""
    ensures Print(w)[0] == "-" + letters
    ensures w.argument.Detached? ==> next < |argv| && Print(w)[1] == argv[next]
    ensures Clean(Items(ReadWords(argv, ostr, next + |Print(w)| - 1, ArgumentOf(w))))
    decreases |letters|
  {
    var c, rest := letters[0], letters[1..];
    CleanRest(ReadLetters(argv, ostr, next, letters, optarg));
    if KindOf(ostr, c) == Flag {
      if rest == "" {
        w := Letters([c], NoArgument);
        assert ReadLetters(argv, ostr, next, rest, None) == ReadWords(argv, ostr, next, None);
      } else {
        var v := RecoverWord(argv, ostr, next, rest, None);
        w := WithFlag(c, v, rest);
      }
    } else if rest != "" {
      w := Letters("", Attached(c, rest));
    } else {
      w := Letters("", Detached(c, argv[next]));
    }
  }

  lemma RecoverSolitary(argv: seq<string>, ostr: string, i: nat, optarg: Option<string>) returns (w: Word)
    requires i < |argv| && argv[i] == "-" && '-' in ostr && Clean(Items(ReadWords(argv, ostr, i, optarg)))
    ensures WellFormed(w, ostr) && Occur(argv, i, Print(w))
    ensures Clean(Items(ReadWords(argv, ostr, i + |Print(w)|, ArgumentOf(w))))
  {
    assert "-"[0] == '-' && "-"[1..] == "";
    assert ReadWords(argv, ostr, i, optarg) == ReadLetters(argv, ostr, i + 1, "-", optarg);
    CleanRest(ReadLetters(argv, ostr, i + 1, "-", optarg));
    if KindOf(ostr, '-') == Flag {
      w := Solitary(None);
      assert ReadLetters(argv, ostr, i + 1, "", None) == ReadWords(argv, ostr, i + 1, None);
    } else {
      w := Solitary(Some(argv[i + 1]));
    }
  }

  lemma RecoverFirst(argv: seq<string>, ostr: string, i: nat, optarg: Option<string>) returns (w: Word)
    requires i < |argv| && !Stops(argv[i..], ostr) && Clean(Items(ReadWords(argv, ostr, i, optarg)))
    ensures WellFormed(w, ostr) && Occur(argv, i, Print(w))
    ensures Clean(Items(ReadWords(argv, ostr, i + |Print(w)|, ArgumentOf(w))))
  {
    assert argv[i..][0] == argv[i];
    if argv[i] == "-" {
      w := RecoverSolitary(argv, ostr, i, optarg);
    } else {
      w := RecoverWord(argv, ostr, i + 1, argv[i][1..], optarg);
      assert Print(w)[0] == argv[i];
    }
  }

  lemma PrintedBefore(argv: seq<string>, i: nat, w: Word, ws: seq<Word>, ostr: string)
    requires Occur(argv, i, Print(w)) && PrintedAt(argv, i + |Print(w)|, ws, ostr)
    ensures PrintedAt(argv, i, [w] + ws, ostr)
  {
    assert ([w] + ws)[1..] == ws;
    OccurTogether(argv, i, Print(w), PrintAll(ws));
  }

  lemma {:induction false} RecoverAll(argv: seq<string>, ostr: string, i: nat, optarg: Option<string>)
    returns (ws: seq<Word>)
    requires i <= |argv| && Clean(Items(ReadWords(argv, ostr, i, optarg)))
    ensures AllWellFormed(ws, ostr) && PrintedAt(argv, i, ws, ostr)
    decreases |argv| - i
  {
    if Stops(argv[i..], ostr) {
      ws := [];
    } else {
      var w := RecoverFirst(argv, ostr, i, optarg);
      var n := |Print(w)|;
      var rest := RecoverAll(argv, ostr, i + n, ArgumentOf(w));
      ws := [w] + rest;
      PrintedBefore(argv, i, w, rest, ostr);
    }
  }

  lemma {:induction false} MeaningsAreClean(ws: seq<Word>, ostr: string)
    requires AllWellFormed(ws, ostr) && '?' !in ostr
    ensures Clean(Meanings(ws))
    decreases |ws|
  {
    if ws != [] {
      MeaningsAreClean(ws[1..], ostr);
      if ws[0].Letters? {
        FlagsAreClean(ws[0].flags, ostr);
      }
    }
  }

  lemma {:induction false} FlagsAreClean(flags: string, ostr: string)
    requires AreFlags(flags, ostr) && '?' !in ostr
    ensures Clean(FlagItems(flags))
    decreases |flags|
  {
    if flags != "" {
      FlagsAreClean(flags[1..], ostr);
    }
  }

  /** Main result, the converse: with '?' no option letter, getopt never complains exactly if the
      command line is a printed list of options with operands behind it. */
  lemma CleanExactlyWhenPrinted(argv: seq<string>, ostr: string)
    requires argv != [] && '?' !in ostr
    ensures Clean(Items(ReadWords(argv, ostr, 1, None)))
        <==> exists ws :: AllWellFormed(ws, ostr) && PrintedAt(argv, 1, ws, ostr)
  {
    if Clean(Items(ReadWords(argv, ostr, 1, None))) {
      var ws := RecoverAll(argv, ostr, 1, None);
    }
    forall ws | AllWellFormed(ws, ostr) && PrintedAt(argv, 1, ws, ostr)
      ensures Clean(Items(ReadWords(argv, ostr, 1, None)))
    {
      PrintedReads(argv, 1, ws, ostr, None);
      MeaningsAreClean(ws, ostr);
    }
  }
}
