/** The command line `run_make` hands to the external `make` tool:
    `["make"]`, then `-f <Makefile>` when a Makefile is named, then the
    targets, then the flags. Targets and flags may each be absent, a string
    cut at every `' '`, or a list; every token is whitespace-stripped. Any
    other shape is rejected with a `ValueError` before a process would be
    started. Path sanitising depends on the environment and the file system
    and is a parameter here. */
module MakeRunner {
  import opened Wrappers
  import opened PyStr

  /** The runtime shapes `run_make` distinguishes for `targets` and `flags`.
      The tests compare exact types: `Str` is a value whose type is exactly
      `str` and `Lst` one whose type is exactly `list`. `Other` is every
      other value except `None`, including instances of subclasses of `str`
      or `list`, `unicode` strings and tuples; it carries the text
      `str(value)` gives for it. Each character of a `string` here stands
      for one byte of a Python 2 `str`. */
  datatype ArgSpec = Absent | Str(text: string) | Lst(items: seq<string>) | Other(repr: string)

  /** The exception `run_make` raises. */
  datatype Error = ValueError(message: string)

  /** What would be handed to the child process: its argument vector and
      its working directory. */
  datatype Invocation = Invocation(argv: seq<string>, cwd: string)

  /** `[x.strip() for x in items]`. */
  function StripAll(items: seq<string>): (r: seq<string>)
    ensures |r| == |items|
    ensures forall k :: 0 <= k < |r| ==> r[k] == Strip(items[k])
  {
    if items == [] then [] else [Strip(items[0])] + StripAll(items[1..])
  }

  /** The message of the `ValueError` for an argument of the wrong shape;
      `name` is `"targets"` or `"flags"`. */
  function ShapeError(name: string, repr: string): Error {
    ValueError(name + " could not be determined from " + repr)
  }

  /** Turns one `targets`/`flags` argument into its tokens: none when
      absent, the stripped `' '`-separated pieces of a string, the stripped
      items of a list, and a `ValueError` naming the value otherwise. */
  function Tokens(name: string, arg: ArgSpec): (r: Result<seq<string>, Error>)
    ensures r.Err? <==> arg.Other?
    ensures arg.Other? ==> r.error == ShapeError(name, arg.repr)
    ensures arg.Absent? ==> r == Ok([])
    ensures arg.Str? ==> r.Ok? && |r.value| == SpaceCount(arg.text) + 1
    ensures arg.Lst? ==> r.Ok? && |r.value| == |arg.items|
    ensures arg.Lst? ==> forall k :: 0 <= k < |arg.items| ==> r.value[k] == Strip(arg.items[k])
    ensures r.Ok? ==> forall k :: 0 <= k < |r.value| ==> Trimmed(r.value[k])
  {
    match arg
    case Absent => Ok([])
    case Str(text) => Ok(StripAll(SplitOnSpace(text)))
    case Lst(items) => Ok(StripAll(items))
    case Other(repr) => Err(ShapeError(name, repr))
  }

  /** The fixed leading token `make`, followed by the `-f <Makefile>` pair
      when a Makefile is named. */
  function CommandHead(sanitize: string -> string, makefile: Option<string>): seq<string> {
    match makefile
    case None => ["make"]
    case Some(path) => ["make", "-f", sanitize(path)]
  }

  /** Lines 19-41 of `run_make`: the argument vector for `make`, or the
      `ValueError` raised for a malformed `targets` (checked first) or
      `flags`. */
  function BuildCommand(sanitize: string -> string, makefile: Option<string>,
                        targets: ArgSpec, flags: ArgSpec): (r: Result<seq<string>, Error>)
    ensures r.Ok? <==> !targets.Other? && !flags.Other?
    ensures targets.Other? ==> r == Err(ShapeError("targets", targets.repr))
    ensures !targets.Other? && flags.Other? ==> r == Err(ShapeError("flags", flags.repr))
    ensures r.Ok? ==> |r.value| >= 1 && r.value[0] == "make"
    ensures r.Ok? && makefile.Some? ==>
              |r.value| >= 3 && r.value[..3] == ["make", "-f", sanitize(makefile.value)] &&
              r.value[3..] == Tokens("targets", targets).value + Tokens("flags", flags).value
    ensures r.Ok? && makefile.None? ==>
              r.value[1..] == Tokens("targets", targets).value + Tokens("flags", flags).value
  {
    var head := CommandHead(sanitize, makefile);
    match Tokens("targets", targets)
    case Err(e) => Err(e)
    case Ok(ts) =>
      match Tokens("flags", flags)
      case Err(e) => Err(e)
      case Ok(fs) =>
        SplitAfter(head, ts + fs);
        Ok(head + (ts + fs))
  }

  /** `run_make` up to the point where the child process would be started:
      the working directory is the sanitised `dir` and the argument vector
      is the one `BuildCommand` assembles; a malformed argument means no
      invocation at all. */
  function RunMake(sanitize: string -> string, makefile: Option<string>,
                   targets: ArgSpec, flags: ArgSpec, dir: string): (r: Result<Invocation, Error>)
    ensures r.Err? <==> targets.Other? || flags.Other?
    ensures r.Ok? ==> r.value.cwd == sanitize(dir)
    ensures r.Ok? ==> r.value.argv == BuildCommand(sanitize, makefile, targets, flags).value
    ensures r.Err? ==> r.error == BuildCommand(sanitize, makefile, targets, flags).error
  {
    match BuildCommand(sanitize, makefile, targets, flags)
    case Err(e) => Err(e)
    case Ok(argv) => Ok(Invocation(argv, sanitize(dir)))
  }

  /** A string argument: one token per `' '`-separated piece, each piece
      stripped, and the unstripped pieces joined by `' '` give the string
      back. */
  lemma StringArgument(name: string, text: string)
    ensures var ts := Tokens(name, Str(text)).value;
            var pieces := SplitOnSpace(text);
            |ts| == |pieces| == SpaceCount(text) + 1 &&
            JoinOnSpace(pieces) == text &&
            forall k :: 0 <= k < |ts| ==> ts[k] == Strip(pieces[k])
  {
  }

  /** Words without spaces or surrounding whitespace, joined by single
      spaces, come back as exactly those words: `"build test"` gives the
      targets `build` and `test`, in that order. */
  lemma WordsString(name: string, words: seq<string>)
    requires |words| >= 1
    requires forall k :: 0 <= k < |words| ==> ' ' !in words[k] && Trimmed(words[k])
    ensures Tokens(name, Str(JoinOnSpace(words))) == Ok(words)
  {
    SplitOnSpaceUnique(JoinOnSpace(words), words);
    StripAllTrimmed(words);
  }

  /** The same words as the only targets: the command is `make` followed
      by them. */
  lemma WordsTargets(sanitize: string -> string, words: seq<string>)
    requires |words| >= 1
    requires forall k :: 0 <= k < |words| ==> ' ' !in words[k] && Trimmed(words[k])
    ensures BuildCommand(sanitize, None, Str(JoinOnSpace(words)), Absent) == Ok(["make"] + words)
  {
    WordsString("targets", words);
    assert BuildCommand(sanitize, None, Str(JoinOnSpace(words)), Absent)
           == Ok(["make"] + (words + []));
    AppendEmpty(words);
  }

  /** Two adjacent spaces enclose an empty token. */
  lemma AdjacentSpaces(name: string, a: string, b: string)
    requires ' ' !in a && ' ' !in b && Trimmed(a) && Trimmed(b)
    ensures Tokens(name, Str(a + " " + " " + b)) == Ok([a, "", b])
  {
    var words := [a, "", b];
    assert JoinOnSpace(words) == a + " " + ("" + " " + JoinOnSpace([b]));
    assert JoinOnSpace(words) == a + " " + " " + b;
    WordsString(name, words);
  }

  /** A string with no `' '` in it is one token, whatever other whitespace
      it holds: `"a\tb"` stays a single argument. */
  lemma NoSpaceOneToken(name: string, text: string)
    requires ' ' !in text
    ensures Tokens(name, Str(text)) == Ok([Strip(text)])
  {
    assert JoinOnSpace([text]) == text;
    SplitOnSpaceUnique(text, [text]);
    assert StripAll([text]) == [Strip(text)];
  }

  /** List items padded with whitespace lose the padding and nothing else:
      `["build", " test "]` gives `build` and `test`. */
  lemma PaddedList(name: string, items: seq<string>, pre: seq<string>,
                   words: seq<string>, post: seq<string>)
    requires |items| == |pre| == |words| == |post|
    requires forall k :: 0 <= k < |items| ==> items[k] == pre[k] + words[k] + post[k]
    requires forall k :: 0 <= k < |items| ==>
               AllSpace(pre[k]) && Trimmed(words[k]) && AllSpace(post[k])
    ensures Tokens(name, Lst(items)) == Ok(words)
  {
    forall k | 0 <= k < |items| ensures StripAll(items)[k] == words[k] {
      StripPadded(pre[k], words[k], post[k]);
    }
    assert StripAll(items) == words;
  }

  /** `StripAll` leaves already-trimmed tokens alone. */
  lemma StripAllTrimmed(items: seq<string>)
    requires forall k :: 0 <= k < |items| ==> Trimmed(items[k])
    ensures StripAll(items) == items
  {
    forall k | 0 <= k < |items| ensures StripAll(items)[k] == items[k] {
      StripTrimmed(items[k]);
    }
  }

  /** `make` leads the vector but need not occur only there: a target
      named `make` is passed through like any other. */
  lemma MakeNotUnique(sanitize: string -> string)
    ensures BuildCommand(sanitize, None, Str("make"), Absent) == Ok(["make", "make"])
  {
    var m := "make";
    assert ' ' !in m && Trimmed(m) by {
      assert m == ['m', 'a', 'k', 'e'];
    }
    assert JoinOnSpace([m]) == m;
    WordsTargets(sanitize, [m]);
    assert [m] + [m] == [m, m];
  }

  /** Sequence bookkeeping: both parts of `head + rest` can be sliced
      back out. */
  lemma SplitAfter<T>(head: seq<T>, rest: seq<T>)
    ensures (head + rest)[..|head|] == head && (head + rest)[|head|..] == rest
  {
  }

  /** Sequence bookkeeping: appending nothing changes nothing. */
  lemma AppendEmpty<T>(xs: seq<T>)
    ensures xs + [] == xs
  {
  }
}
