/** The command-line grammar of pflag, as a function from arguments to Set calls and leftovers.
    A string is a string of bytes, as in Go: each char stands for one byte. */
module FlagParsing {
  import opened Bytes

  /** A defined flag. Its identity matters: flags are shared between maps. */
  class Flag {
    const name: string
    const shorthand: string
    const isBool: bool

    constructor (name: string, shorthand: string, isBool: bool)
      ensures this.name == name && this.shorthand == shorthand && this.isBool == isBool
    {
      this.name, this.shorthand, this.isBool := name, shorthand, isBool;
    }
  }

  /** A call of Set on a flag's value. */
  datatype Call = Call(flag: Flag, value: string)

  /** What a parse reads: the defined flags, and which Set calls succeed after which others. */
  datatype Env = Env(formal: map<string, Flag>, shorthands: map<char, Flag>, interspersed: bool,
                     accepts: (seq<Call>, Flag, string) -> bool)

  /** What a parse changes. The values of all flags are determined by calls. */
  datatype State = State(calls: seq<Call>, actual: map<string, Flag>, args: seq<string>)

  datatype Error =
    | BadSyntax
    | UnknownFlag
    | UnknownShorthand
    | LongNeedsArgument
    | ShortNeedsArgument(flag: Flag)
    | InvalidArgument
    | HelpRequested

  /** Done: all arguments were consumed. Stopped: the rest was kept verbatim. */
  datatype Outcome = Done | Stopped | Failed(error: Error)

  datatype Parsed = Parsed(state: State, outcome: Outcome)

  /** One argument was handled, leaving rest, or the parse failed. */
  datatype Step = Next(state: State, rest: seq<string>) | Abort(state: State, error: Error)

  predicate IsPositional(s: string) {
    s == "" || s[0] != '-' || |s| == 1
  }

  predicate Accepted(env: Env, st: State, flag: Flag, value: string) {
    env.accepts(st.calls, flag, value)
  }

  /** setFlag: Set is called; a flag that accepts is marked as set. */
  function SetFlag(env: Env, st: State, flag: Flag, value: string): State {
    st.(calls := st.calls + [Call(flag, value)],
        actual := if Accepted(env, st, flag, value) then st.actual[flag.name := flag] else st.actual)
  }

  /** A setFlag whose error ends the parse. */
  function SetOrFail(env: Env, st: State, flag: Flag, value: string, rest: seq<string>): Step {
    var next := SetFlag(env, st, flag, value);
    if Accepted(env, st, flag, value) then Next(next, rest) else Abort(next, InvalidArgument)
  }

  /** The position of the first '='. */
  function FindEquals(s: string): (k: Option<nat>)
    ensures k.Some? ==> k.value < |s| && s[k.value] == '=' && '=' !in s[..k.value]
    ensures k.None? ==> '=' !in s
  {
    if s == "" then None
    else if s[0] == '=' then Some(0)
    else
      match FindEquals(s[1..])
      case None => None
      case Some(k) => assert s[..k + 1] == [s[0]] + s[1..][..k]; Some(k + 1)
  }

  /** --name, --name=value. */
  function LongOption(env: Env, st: State, body: string, rest: seq<string>): Step {
    if body == "" || body[0] == '-' || body[0] == '=' then Abort(st, BadSyntax)
    else
      var eq := FindEquals(body);
      var name := if eq.Some? then body[..eq.value] else body;
      if name !in env.formal then Abort(st, if name == "help" then HelpRequested else UnknownFlag)
      else if eq.Some? then SetOrFail(env, st, env.formal[name], body[eq.value + 1..], rest)
      else if !env.formal[name].isBool then Abort(st, LongNeedsArgument)
      else Next(SetFlag(env, st, env.formal[name], "true"), rest)
  }

  /** The letters after a single dash. */
  function ShortOptions(env: Env, st: State, letters: string, rest: seq<string>): (r: Step)
    ensures r.Next? ==> r.rest == rest || (rest != [] && r.rest == rest[1..])
    decreases |letters|
  {
    if letters == "" then Next(st, rest)
    else
      var c := letters[0];
      if c !in env.shorthands then Abort(st, if c == 'h' then HelpRequested else UnknownShorthand)
      else
        var flag := env.shorthands[c];
        if flag.isBool then ShortOptions(env, SetFlag(env, st, flag, "true"), letters[1..], rest)
        else if |letters| > 1 then SetOrFail(env, st, flag, letters[1..], rest)
        else if rest == [] then Abort(st, ShortNeedsArgument(flag))
        else SetOrFail(env, st, flag, rest[0], rest[1..])
  }

  /** An argument that starts an option. */
  function Handle(env: Env, st: State, s: string, rest: seq<string>): (r: Step)
    requires !IsPositional(s) && s != "--"
    ensures r.Next? ==> r.rest == rest || (rest != [] && r.rest == rest[1..])
  {
    if s[1] == '-' then LongOption(env, st, s[2..], rest) else ShortOptions(env, st, s[1..], rest)
  }

  /** parseArgs. */
  function Parse(env: Env, st: State, args: seq<string>): Parsed
    decreases |args|
  {
    if args == [] then Parsed(st, Done)
    else
      var s, rest := args[0], args[1..];
      if IsPositional(s) then
        if env.interspersed then Parse(env, st.(args := st.args + [s]), rest)
        else Parsed(st.(args := st.args + [s] + rest), Stopped)
      else if s == "--" then Parsed(st.(args := st.args + rest), Stopped)
      else
        match Handle(env, st, s, rest)
        case Abort(next, error) => Parsed(next, Failed(error))
        case Next(next, left) => Parse(env, next, left)
  }

  // ---------------------------------------------------------------- command lines in parts

  /** How the arguments after a prefix are treated, given how the prefix ended. */
  function Continue(env: Env, prefix: Parsed, post: seq<string>): Parsed {
    match prefix.outcome
    case Done => Parse(env, prefix.state, post)
    case Stopped => Parsed(prefix.state.(args := prefix.state.args + post), Stopped)
    case Failed(ShortNeedsArgument(flag)) =>
      if post == [] then prefix
      else
        (match SetOrFail(env, prefix.state, flag, post[0], post[1..])
         case Abort(next, error) => Parsed(next, Failed(error))
         case Next(next, left) => Parse(env, next, left))
    case Failed(_) => prefix
  }

  /** An option with more arguments after it: only a letter that still needs its argument
      looks at them. */
  lemma {:induction false} ShortOptionsConcat(env: Env, st: State, letters: string, rest: seq<string>,
                                              post: seq<string>)
    ensures match ShortOptions(env, st, letters, rest)
      case Next(next, left) => ShortOptions(env, st, letters, rest + post) == Next(next, left + post)
      case Abort(next, ShortNeedsArgument(flag)) =>
        rest == [] && (post != [] ==>
          ShortOptions(env, st, letters, rest + post) == SetOrFail(env, next, flag, post[0], post[1..]))
      case Abort(next, error) => ShortOptions(env, st, letters, rest + post) == Abort(next, error)
    decreases |letters|
  {
    if letters != "" && letters[0] in env.shorthands {
      var flag := env.shorthands[letters[0]];
      if flag.isBool {
        ShortOptionsConcat(env, SetFlag(env, st, flag, "true"), letters[1..], rest, post);
      } else if rest == [] {
        assert rest + post == post;
      } else {
        assert (rest + post)[1..] == rest[1..] + post;
      }
    }
  }

  lemma HandleConcat(env: Env, st: State, s: string, rest: seq<string>, post: seq<string>)
    requires !IsPositional(s) && s != "--"
    ensures match Handle(env, st, s, rest)
      case Next(next, left) => Handle(env, st, s, rest + post) == Next(next, left + post)
      case Abort(next, ShortNeedsArgument(flag)) =>
        rest == [] && (post != [] ==>
          Handle(env, st, s, rest + post) == SetOrFail(env, next, flag, post[0], post[1..]))
      case Abort(next, error) => Handle(env, st, s, rest + post) == Abort(next, error)
  {
    if s[1] != '-' {
      ShortOptionsConcat(env, st, s[1..], rest, post);
    }
  }

  /** Parsing a command line is parsing its prefix and then the rest from where that ended. */
  lemma {:induction false} ParseConcat(env: Env, st: State, pre: seq<string>, post: seq<string>)
    ensures Parse(env, st, pre + post) == Continue(env, Parse(env, st, pre), post)
    decreases |pre|
  {
    if pre == [] {
      assert pre + post == post;
    } else {
      var s, rest := pre[0], pre[1..];
      var all := pre + post;
      assert all[0] == s && all[1..] == rest + post;
      if IsPositional(s) {
        if env.interspersed {
          ParseConcat(env, st.(args := st.args + [s]), rest, post);
        } else {
          assert st.args + [s] + (rest + post) == st.args + [s] + rest + post;
        }
      } else if s == "--" {
        assert st.args + (rest + post) == st.args + rest + post;
      } else {
        HandleConcat(env, st, s, rest, post);
        match Handle(env, st, s, rest)
        case Next(next, left) => ParseConcat(env, next, left, post);
        case Abort(_, _) =>
          if post == [] {
            assert rest + post == rest;
          }
      }
    }
  }

  // ---------------------------------------------------------------- spellings of short options

  function Dashed(letters: string): string {
    "-" + letters
  }

  function Singles(letters: string): seq<string> {
    if letters == "" then [] else [Dashed(letters[..1])] + Singles(letters[1..])
  }

  predicate BoolLetters(env: Env, letters: string) {
    forall i :: 0 <= i < |letters| ==>
      letters[i] != '-' && letters[i] in env.shorthands && env.shorthands[letters[i]].isBool
  }

  /** Set is called with "true" for each letter in turn. */
  function SetAll(env: Env, st: State, letters: string): State
    requires BoolLetters(env, letters)
    decreases |letters|
  {
    if letters == "" then st
    else SetAll(env, SetFlag(env, st, env.shorthands[letters[0]], "true"), letters[1..])
  }

  lemma {:induction false} BundleSetsAll(env: Env, st: State, letters: string, rest: seq<string>)
    requires BoolLetters(env, letters)
    ensures ShortOptions(env, st, letters, rest) == Next(SetAll(env, st, letters), rest)
    decreases |letters|
  {
    if letters != "" {
      BundleSetsAll(env, SetFlag(env, st, env.shorthands[letters[0]], "true"), letters[1..], rest);
    }
  }

  lemma BundleParsed(env: Env, st: State, letters: string, post: seq<string>)
    requires letters != "" && BoolLetters(env, letters)
    ensures Parse(env, st, [Dashed(letters)] + post) == Parse(env, SetAll(env, st, letters), post)
  {
    var s := Dashed(letters);
    assert s[1] == letters[0] && s[1..] == letters;
    assert ([s] + post)[1..] == post;
    BundleSetsAll(env, st, letters, post);
  }

  lemma {:induction false} SinglesParsed(env: Env, st: State, letters: string, post: seq<string>)
    requires BoolLetters(env, letters)
    ensures Parse(env, st, Singles(letters) + post) == Parse(env, SetAll(env, st, letters), post)
    decreases |letters|
  {
    if letters == "" {
      assert Singles(letters) + post == post;
    } else {
      var first, rest := letters[..1], letters[1..];
      assert first == [letters[0]];
      var st1 := SetFlag(env, st, env.shorthands[letters[0]], "true");
      BundleParsed(env, st, first, Singles(rest) + post);
      assert first[1..] == "";
      assert SetAll(env, st, first) == st1;
      assert Singles(letters) + post == [Dashed(first)] + (Singles(rest) + post);
      SinglesParsed(env, st1, rest, post);
    }
  }

  /** A parse never takes back a Set call or a stored argument. */
  lemma {:induction false} ShortOptionsGrow(env: Env, st: State, letters: string, rest: seq<string>)
    ensures st.calls <= ShortOptions(env, st, letters, rest).state.calls
    ensures st.args == ShortOptions(env, st, letters, rest).state.args
    decreases |letters|
  {
    if letters != "" && letters[0] in env.shorthands && env.shorthands[letters[0]].isBool {
      ShortOptionsGrow(env, SetFlag(env, st, env.shorthands[letters[0]], "true"), letters[1..], rest);
    }
  }

  lemma {:induction false} ParseGrows(env: Env, st: State, args: seq<string>)
    ensures st.calls <= Parse(env, st, args).state.calls
    ensures st.args <= Parse(env, st, args).state.args
    decreases |args|
  {
    if args != [] {
      var s, rest := args[0], args[1..];
      if IsPositional(s) {
        if env.interspersed {
          ParseGrows(env, st.(args := st.args + [s]), rest);
        }
      } else if s != "--" {
        if s[1] != '-' {
          ShortOptionsGrow(env, st, s[1..], rest);
        }
        var step := Handle(env, st, s, rest);
        if step.Next? {
          ParseGrows(env, step.state, step.rest);
        }
      }
    }
  }

  /** The parse of pre neither stops nor waits for an argument, so the argument after pre is
      read as an option, or not read at all. */
  predicate LeavesOptions(p: Parsed) {
    p.outcome != Stopped && !(p.outcome.Failed? && p.outcome.error.ShortNeedsArgument?)
  }

  /** Two ways to spell the same options, which parse alike where options are read, do so inside
      a command line if and only if the part before them leaves options to be read. */
  lemma SpellingsInContext(env: Env, st: State, pre: seq<string>, a: seq<string>, b: seq<string>, post: seq<string>)
    requires forall s :: Parse(env, s, a + post) == Parse(env, s, b + post)
    requires |a| != |b| && a != [] && b != [] && a[0] != b[0]
    ensures Parse(env, st, pre + a + post) == Parse(env, st, pre + b + post)
      <==> LeavesOptions(Parse(env, st, pre))
  {
    var p := Parse(env, st, pre);
    Associative(pre, a, post);
    Associative(pre, b, post);
    ParseConcat(env, st, pre, a + post);
    ParseConcat(env, st, pre, b + post);
    match p.outcome
    case Done =>
    case Stopped =>
      assert |(p.state.args + (a + post))| != |(p.state.args + (b + post))|;
    case Failed(error) =>
      if error.ShortNeedsArgument? {
        FirstTaken(env, p.state, error.flag, a + post);
        FirstTaken(env, p.state, error.flag, b + post);
      }
  }

  /** A waiting letter takes the next argument, whatever it looks like. */
  lemma FirstTaken(env: Env, st: State, flag: Flag, args: seq<string>)
    requires args != []
    ensures var r := Continue(env, Parsed(st, Failed(ShortNeedsArgument(flag))), args);
      |r.state.calls| > |st.calls| && r.state.calls[|st.calls|] == Call(flag, args[0])
  {
    var step := SetOrFail(env, st, flag, args[0], args[1..]);
    if step.Next? {
      ParseGrows(env, step.state, step.rest);
    }
  }

  /** -abc is -a -b -c, for boolean letters, in every command line whose part before it leaves
      options to be read, and in no other. */
  lemma BundleEquivalence(env: Env, st: State, pre: seq<string>, letters: string, post: seq<string>)
    requires |letters| > 1 && BoolLetters(env, letters)
    ensures Parse(env, st, pre + [Dashed(letters)] + post) == Parse(env, st, pre + Singles(letters) + post)
      <==> LeavesOptions(Parse(env, st, pre))
  {
    forall s
      ensures Parse(env, s, [Dashed(letters)] + post) == Parse(env, s, Singles(letters) + post)
    {
      BundleParsed(env, s, letters, post);
      SinglesParsed(env, s, letters, post);
    }
    assert Singles(letters) == [Dashed(letters[..1])] + ([Dashed(letters[1..][..1])] + Singles(letters[1..][1..]));
    assert |Dashed(letters)| != |Dashed(letters[..1])|;
    SpellingsInContext(env, st, pre, [Dashed(letters)], Singles(letters), post);
  }

  /** -nV is -n V, for a letter that takes a value and V not empty, under the same condition. */
  lemma GluedValueEquivalence(env: Env, st: State, pre: seq<string>, n: char, value: string, post: seq<string>)
    requires n != '-' && n in env.shorthands && !env.shorthands[n].isBool && value != ""
    ensures Parse(env, st, pre + [Dashed([n] + value)] + post) == Parse(env, st, pre + [Dashed([n]), value] + post)
      <==> LeavesOptions(Parse(env, st, pre))
  {
    forall s
      ensures Parse(env, s, [Dashed([n] + value)] + post) == Parse(env, s, [Dashed([n]), value] + post)
    {
      ValueParsed(env, s, n, value, post);
    }
    assert |Dashed([n] + value)| != |Dashed([n])|;
    SpellingsInContext(env, st, pre, [Dashed([n] + value)], [Dashed([n]), value], post);
  }

  lemma ValueParsed(env: Env, st: State, n: char, value: string, post: seq<string>)
    requires n != '-' && n in env.shorthands && !env.shorthands[n].isBool && value != ""
    ensures Parse(env, st, [Dashed([n] + value)] + post) == Parse(env, st, [Dashed([n]), value] + post)
  {
    var glued, split := [Dashed([n] + value)] + post, [Dashed([n]), value] + post;
    assert glued[1..] == post && split[1..] == [value] + post && ([value] + post)[1..] == post;
    assert Dashed([n] + value)[1..] == [n] + value && ([n] + value)[1..] == value;
    assert Dashed([n])[1..] == [n];
  }

  /** After a terminator, a bundle and its letters are kept as they are spelled; after a letter
      that waits for its argument, the first of them is taken as the argument. */
  lemma SpellingsDifferExample(env: Env, st: State)
    requires BoolLetters(env, "ab")
    ensures Parse(env, st, ["--", "-ab"]).state.args == st.args + ["-ab"]
    ensures Parse(env, st, ["--", "-a", "-b"]).state.args == st.args + ["-a", "-b"]
    ensures 'n' in env.shorthands && !env.shorthands['n'].isBool ==>
      Parse(env, st, ["-n", "-ab"]) != Parse(env, st, ["-n", "-a", "-b"])
  {
    assert ["--", "-ab"][1..] == ["-ab"] && ["--", "-a", "-b"][1..] == ["-a", "-b"];
    if 'n' in env.shorthands && !env.shorthands['n'].isBool {
      assert "-n"[1..] == "n" && "n"[1..] == "" && ["-n"][1..] == [];
      assert ShortOptions(env, st, "n", []) == Abort(st, ShortNeedsArgument(env.shorthands['n']));
      TwoSingles();
      BundleEquivalence(env, st, ["-n"], "ab", []);
    }
  }

  lemma TwoSingles()
    ensures ["-n"] + [Dashed("ab")] + [] == ["-n", "-ab"]
    ensures ["-n"] + Singles("ab") + [] == ["-n", "-a", "-b"]
  {
    assert "ab"[..1] == "a" && "ab"[1..] == "b" && "b"[..1] == "b" && "b"[1..] == "";
    assert Dashed("a") == "-a" && Dashed("b") == "-b" && Dashed("ab") == "-ab";
    assert Singles("b") == ["-b"];
  }

  // ---------------------------------------------------------------- positional arguments

  /** some is all with elements left out. */
  predicate IsSubsequence(some: seq<string>, all: seq<string>)
    decreases |all|
  {
    if some == [] then true
    else if all == [] then false
    else if some[0] == all[0] then IsSubsequence(some[1..], all[1..])
    else IsSubsequence(some, all[1..])
  }

  lemma {:induction false} AllIsSubsequence(all: seq<string>)
    ensures IsSubsequence(all, all)
  {
    if all != [] {
      AllIsSubsequence(all[1..]);
    }
  }

  /** Leaving out one more element. */
  lemma {:induction false} SkipOne(some: seq<string>, all: seq<string>)
    requires all != [] && IsSubsequence(some, all[1..])
    ensures IsSubsequence(some, all)
    decreases |all|, 0
  {
    if some != [] && some[0] == all[0] {
      DropHead(some, all[1..]);
    }
  }

  lemma {:induction false} DropHead(some: seq<string>, all: seq<string>)
    requires some != [] && IsSubsequence(some, all)
    ensures IsSubsequence(some[1..], all)
    decreases |all|, 1
  {
    if some[0] == all[0] {
      SkipOne(some[1..], all);
    } else {
      DropHead(some, all[1..]);
      SkipOne(some[1..], all);
    }
  }

  /** The arguments that parseArgs stores are arguments of the command line, in their order. */
  lemma {:induction false} StoredInOrder(env: Env, st: State, args: seq<string>) returns (stored: seq<string>)
    ensures Parse(env, st, args).state.args == st.args + stored
    ensures IsSubsequence(stored, args)
    decreases |args|
  {
    if args == [] {
      return [];
    }
    var s, rest := args[0], args[1..];
    if IsPositional(s) {
      if env.interspersed {
        var more := StoredInOrder(env, st.(args := st.args + [s]), rest);
        Associative(st.args, [s], more);
        stored := [s] + more;
        assert stored[1..] == more;
      } else {
        Associative(st.args, [s], rest);
        stored := args;
        assert [s] + rest == args;
        AllIsSubsequence(args);
      }
    } else if s == "--" {
      stored := rest;
      AllIsSubsequence(rest);
      SkipOne(stored, args);
    } else {
      HandleKeepsArgs(env, st, s, rest);
      var step := Handle(env, st, s, rest);
      if step.Abort? {
        assert st.args + [] == st.args;
        return [];
      }
      stored := StoredInOrder(env, step.state, step.rest);
      if step.rest != rest {
        SkipOne(stored, rest);
      }
      SkipOne(stored, args);
    }
  }

  lemma HandleKeepsArgs(env: Env, st: State, s: string, rest: seq<string>)
    requires !IsPositional(s) && s != "--"
    ensures Handle(env, st, s, rest).state.args == st.args
  {
    if s[1] != '-' {
      ShortOptionsGrow(env, st, s[1..], rest);
    }
  }

  /** Everything after a terminator that is reached is kept verbatim, and sets no flag. */
  lemma TerminatorKeepsRest(env: Env, st: State, pre: seq<string>, post: seq<string>)
    requires Parse(env, st, pre).outcome == Done
    ensures var before := Parse(env, st, pre).state;
      Parse(env, st, pre + ["--"] + post) == Parsed(before.(args := before.args + post), Stopped)
  {
    Associative(pre, ["--"], post);
    ParseConcat(env, st, pre, ["--"] + post);
    assert (["--"] + post)[1..] == post;
  }

  /** Without interspersing, the first positional argument ends the options: it and everything
      after it is kept verbatim, and the options before it stored nothing. */
  lemma FirstPositionalKeepsRest(env: Env, st: State, pre: seq<string>, s: string, post: seq<string>)
    requires !env.interspersed && IsPositional(s) && Parse(env, st, pre).outcome == Done
    ensures var before := Parse(env, st, pre).state;
      && before.args == st.args
      && Parse(env, st, pre + [s] + post) == Parsed(before.(args := st.args + [s] + post), Stopped)
  {
    Associative(pre, [s], post);
    ParseConcat(env, st, pre, [s] + post);
    assert ([s] + post)[1..] == post;
    DoneStoresNothing(env, st, pre);
  }

  lemma {:induction false} DoneStoresNothing(env: Env, st: State, args: seq<string>)
    requires !env.interspersed && Parse(env, st, args).outcome == Done
    ensures Parse(env, st, args).state.args == st.args
    decreases |args|
  {
    if args != [] {
      HandleKeepsArgs(env, st, args[0], args[1..]);
      var step := Handle(env, st, args[0], args[1..]);
      DoneStoresNothing(env, step.state, step.rest);
    }
  }

  // ---------------------------------------------------------------- printing long options

  datatype Item = Setting(name: string, value: string) | Positional(arg: string)

  function Print(item: Item): string {
    match item
    case Setting(name, value) => "--" + name + "=" + value
    case Positional(arg) => arg
  }

  function PrintAll(items: seq<Item>): seq<string> {
    if items == [] then [] else [Print(items[0])] + PrintAll(items[1..])
  }

  /** A defined flag with a name that can be written, or an argument that looks like none. */
  predicate Printable(env: Env, item: Item) {
    match item
    case Setting(name, _) => name in env.formal && name != "" && name[0] != '-' && '=' !in name
    case Positional(arg) => IsPositional(arg)
  }

  predicate AllPrintable(env: Env, items: seq<Item>) {
    forall i :: 0 <= i < |items| ==> Printable(env, items[i])
  }

  /** What the item asks for. */
  function Apply(env: Env, st: State, item: Item): State
    requires Printable(env, item)
  {
    match item
    case Setting(name, value) =>
      var flag := env.formal[name];
      st.(calls := st.calls + [Call(flag, value)], actual := st.actual[flag.name := flag])
    case Positional(arg) => st.(args := st.args + [arg])
  }

  function ApplyAll(env: Env, st: State, items: seq<Item>): State
    requires AllPrintable(env, items)
    decreases |items|
  {
    if items == [] then st else ApplyAll(env, Apply(env, st, items[0]), items[1..])
  }

  /** Every Set call succeeds, each after the ones before it. */
  predicate AllAccepted(env: Env, st: State, items: seq<Item>)
    requires AllPrintable(env, items)
    decreases |items|
  {
    if items == [] then true
    else
      && (match items[0]
          case Setting(name, value) => Accepted(env, st, env.formal[name], value)
          case Positional(_) => true)
      && AllAccepted(env, Apply(env, st, items[0]), items[1..])
  }

  lemma SettingParsed(env: Env, st: State, name: string, value: string, rest: seq<string>)
    requires Printable(env, Setting(name, value)) && Accepted(env, st, env.formal[name], value)
    ensures var s := Print(Setting(name, value));
      && !IsPositional(s) && s != "--"
      && Handle(env, st, s, rest) == Next(Apply(env, st, Setting(name, value)), rest)
  {
    SettingHandled(env, st, name, value, rest);
  }

  lemma FirstEquals(name: string, value: string)
    requires '=' !in name
    ensures FindEquals(name + "=" + value) == Some(|name|)
  {
    var body := name + "=" + value;
    assert body[|name|] == '=';
    assert body[..|name|] == name;
  }

  /** Printing settings as --name=value among positionals and parsing the result makes exactly
      those Set calls, in order, and stores exactly those positionals, in order. */
  lemma {:induction false} PrintParse(env: Env, st: State, items: seq<Item>)
    requires env.interspersed
    requires AllPrintable(env, items) && AllAccepted(env, st, items)
    ensures Parse(env, st, PrintAll(items)) == Parsed(ApplyAll(env, st, items), Done)
    decreases |items|
  {
    if items != [] {
      var rest := PrintAll(items[1..]);
      assert PrintAll(items)[0] == Print(items[0]) && PrintAll(items)[1..] == rest;
      match items[0]
      case Setting(name, value) =>
        SettingParsed(env, st, name, value, rest);
        PrintParse(env, Apply(env, st, items[0]), items[1..]);
      case Positional(arg) =>
        PrintParse(env, Apply(env, st, items[0]), items[1..]);
    }
  }

  // ---------------------------------------------------------------- one option

  /** An option of its own makes the Set call that --name=value with that value makes, or none. */
  lemma OneOption(env: Env, st: State, s: string, post: seq<string>)
    requires !IsPositional(s) && s != "--"
    ensures Parse(env, st, [s] + post) ==
      match Handle(env, st, s, post)
      case Abort(next, error) => Parsed(next, Failed(error))
      case Next(next, left) => Parse(env, next, left)
  {
    assert ([s] + post)[1..] == post;
  }

  lemma SettingHandled(env: Env, st: State, name: string, value: string, rest: seq<string>)
    requires Printable(env, Setting(name, value))
    ensures var s := Print(Setting(name, value));
      && !IsPositional(s) && s != "--"
      && Handle(env, st, s, rest) == SetOrFail(env, st, env.formal[name], value, rest)
  {
    var s := Print(Setting(name, value));
    var body := name + "=" + value;
    assert s[..2] == "--" && s[2..] == body;
    FirstEquals(name, value);
    assert body[..|name|] == name && body[|name| + 1..] == value;
  }

  /** A value that its flag refuses ends the parse: the call has been made, and nothing is
      marked or stored. */
  lemma RefusedSetting(env: Env, st: State, name: string, value: string, post: seq<string>)
    requires Printable(env, Setting(name, value)) && !env.accepts(st.calls, env.formal[name], value)
    ensures Parse(env, st, ["--" + name + "=" + value] + post)
      == Parsed(st.(calls := st.calls + [Call(env.formal[name], value)]), Failed(InvalidArgument))
  {
    SettingHandled(env, st, name, value, post);
    OneOption(env, st, "--" + name + "=" + value, post);
  }

  lemma BareHandled(env: Env, st: State, name: string, post: seq<string>)
    requires name != "" && name[0] != '-' && '=' !in name
    ensures Parse(env, st, ["--" + name] + post) ==
      if name !in env.formal then Parsed(st, Failed(if name == "help" then HelpRequested else UnknownFlag))
      else if !env.formal[name].isBool then Parsed(st, Failed(LongNeedsArgument))
      else Parse(env, SetFlag(env, st, env.formal[name], "true"), post)
  {
    var s := "--" + name;
    assert s[2..] == name && s[1] == '-' && |s| > 2;
    OneOption(env, st, s, post);
  }

  /** A bare --name of a boolean flag is --name=true, except that a refusal is ignored. */
  lemma BareBoolean(env: Env, st: State, name: string, post: seq<string>)
    requires Printable(env, Setting(name, "true")) && env.formal[name].isBool
    ensures env.accepts(st.calls, env.formal[name], "true") ==>
      Parse(env, st, ["--" + name] + post) == Parse(env, st, ["--" + name + "=" + "true"] + post)
    ensures !env.accepts(st.calls, env.formal[name], "true") ==>
      Parse(env, st, ["--" + name] + post)
        == Parse(env, st.(calls := st.calls + [Call(env.formal[name], "true")]), post)
  {
    BareHandled(env, st, name, post);
    SettingHandled(env, st, name, "true", post);
    OneOption(env, st, "--" + name + "=" + "true", post);
  }

  /** A bare --name of any other flag, or of none, is an error before any Set call. */
  lemma BareNeedsBoolean(env: Env, st: State, name: string, post: seq<string>)
    requires name != "" && name[0] != '-' && '=' !in name
    ensures name in env.formal && !env.formal[name].isBool ==>
      Parse(env, st, ["--" + name] + post) == Parsed(st, Failed(LongNeedsArgument))
    ensures name !in env.formal ==>
      Parse(env, st, ["--" + name] + post)
        == Parsed(st, Failed(if name == "help" then HelpRequested else UnknownFlag))
  {
    BareHandled(env, st, name, post);
  }

  /** So is a setting of an undefined flag. */
  lemma UnknownSetting(env: Env, st: State, name: string, value: string, post: seq<string>)
    requires name != "" && name[0] != '-' && '=' !in name && name !in env.formal
    ensures Parse(env, st, ["--" + name + "=" + value] + post)
      == Parsed(st, Failed(if name == "help" then HelpRequested else UnknownFlag))
  {
    var s := "--" + name + "=" + value;
    var body := name + "=" + value;
    assert s[..2] == "--" && s[2..] == body;
    FirstEquals(name, value);
    assert body[..|name|] == name;
    OneOption(env, st, s, post);
  }

  /** Three dashes, or no name before the equals sign, are bad syntax. */
  lemma BadNames(env: Env, st: State, s: string, post: seq<string>)
    ensures Parse(env, st, ["---" + s] + post) == Parsed(st, Failed(BadSyntax))
    ensures Parse(env, st, ["--=" + s] + post) == Parsed(st, Failed(BadSyntax))
  {
    assert ("---" + s)[2..] == "-" + s && ("--=" + s)[2..] == "=" + s;
    OneOption(env, st, "---" + s, post);
    OneOption(env, st, "--=" + s, post);
  }

  /** The letter of a boolean flag is its bare name, and the letter of any other flag followed by
      a value is the setting of its name to that value. */
  lemma LetterIsName(env: Env, st: State, c: char, value: string, post: seq<string>)
    requires c != '-' && c in env.shorthands && env.shorthands[c].name in env.formal
    requires env.formal[env.shorthands[c].name] == env.shorthands[c]
    requires Printable(env, Setting(env.shorthands[c].name, value))
    ensures var name := env.shorthands[c].name;
      if env.shorthands[c].isBool then
        Parse(env, st, [Dashed([c])] + post) == Parse(env, st, ["--" + name] + post)
      else
        Parse(env, st, [Dashed([c]), value] + post) == Parse(env, st, ["--" + name + "=" + value] + post)
  {
    var flag, s := env.shorthands[c], Dashed([c]);
    assert s[1..] == [c] && [c][1..] == "";
    if flag.isBool {
      OneOption(env, st, s, post);
      assert ShortOptions(env, SetFlag(env, st, flag, "true"), [c][1..], post)
        == Next(SetFlag(env, st, flag, "true"), post);
      BareHandled(env, st, flag.name, post);
    } else {
      OneOption(env, st, s, [value] + post);
      assert ([value] + post)[1..] == post && [s] + ([value] + post) == [s, value] + post;
      SettingHandled(env, st, flag.name, value, post);
      OneOption(env, st, "--" + flag.name + "=" + value, post);
    }
  }

  /** A letter without a flag is an error, whatever follows it, and so is the last argument if
      its last letter needs a value. */
  lemma LetterErrors(env: Env, st: State, c: char, more: string, post: seq<string>)
    requires c != '-'
    ensures c !in env.shorthands ==>
      Parse(env, st, [Dashed([c] + more)] + post)
        == Parsed(st, Failed(if c == 'h' then HelpRequested else UnknownShorthand))
    ensures c in env.shorthands && !env.shorthands[c].isBool ==>
      Parse(env, st, [Dashed([c])]) == Parsed(st, Failed(ShortNeedsArgument(env.shorthands[c])))
  {
    assert Dashed([c] + more)[1..] == [c] + more;
    OneOption(env, st, Dashed([c] + more), post);
    assert Dashed([c])[1..] == [c];
    OneOption(env, st, Dashed([c]), []);
    assert [Dashed([c])] + [] == [Dashed([c])];
  }

  // ---------------------------------------------------------------- the flags marked as set

  /** Call i was accepted by its flag. */
  predicate AcceptedAt(env: Env, calls: seq<Call>, i: nat)
    requires i < |calls|
  {
    env.accepts(calls[..i], calls[i].flag, calls[i].value)
  }

  /** The marks after calls, those before the first k calls being actual. */
  function Replay(env: Env, actual: map<string, Flag>, calls: seq<Call>, k: nat): map<string, Flag>
    requires k <= |calls|
    decreases |calls|
  {
    if |calls| == k then actual
    else
      var n := |calls| - 1;
      var marks := Replay(env, actual, calls[..n], k);
      if AcceptedAt(env, calls, n) then marks[calls[n].flag.name := calls[n].flag] else marks
  }

  /** after comes from before by Set calls that mark exactly the flags that accept. */
  predicate Marked(env: Env, before: State, after: State) {
    && before.calls <= after.calls
    && after.actual == Replay(env, before.actual, after.calls, |before.calls|)
  }

  lemma MarkedNothing(env: Env, st: State, next: State)
    requires next.calls == st.calls && next.actual == st.actual
    ensures Marked(env, st, next)
  {
  }

  lemma MarkedOnce(env: Env, st: State, flag: Flag, value: string)
    ensures Marked(env, st, SetFlag(env, st, flag, value))
  {
    var calls := st.calls + [Call(flag, value)];
    assert calls[..|st.calls|] == st.calls;
  }

  lemma {:induction false} ReplayConcat(env: Env, actual: map<string, Flag>, calls: seq<Call>, j: nat, k: nat)
    requires j <= k <= |calls|
    ensures Replay(env, actual, calls, j) == Replay(env, Replay(env, actual, calls[..k], j), calls, k)
    decreases |calls|
  {
    if |calls| == k {
      assert calls[..k] == calls;
    } else {
      var front := calls[..|calls| - 1];
      assert front[..k] == calls[..k];
      ReplayConcat(env, actual, front, j, k);
    }
  }

  lemma MarkedTwice(env: Env, a: State, b: State, c: State)
    requires Marked(env, a, b) && Marked(env, b, c)
    ensures Marked(env, a, c)
  {
    hide Replay;
    assert c.calls[..|b.calls|] == b.calls;
    ReplayConcat(env, a.actual, c.calls, |a.calls|, |b.calls|);
  }

  lemma {:induction false} ShortOptionsMark(env: Env, st: State, letters: string, rest: seq<string>)
    ensures Marked(env, st, ShortOptions(env, st, letters, rest).state)
    decreases |letters|
  {
    hide Marked, SetFlag;
    if letters == "" || letters[0] !in env.shorthands {
      MarkedNothing(env, st, st);
    } else {
      var flag := env.shorthands[letters[0]];
      if flag.isBool {
        var next := SetFlag(env, st, flag, "true");
        MarkedOnce(env, st, flag, "true");
        ShortOptionsMark(env, next, letters[1..], rest);
        MarkedTwice(env, st, next, ShortOptions(env, next, letters[1..], rest).state);
      } else if |letters| > 1 {
        MarkedOnce(env, st, flag, letters[1..]);
      } else if rest == [] {
        MarkedNothing(env, st, st);
      } else {
        MarkedOnce(env, st, flag, rest[0]);
      }
    }
  }

  lemma HandleMarks(env: Env, st: State, s: string, rest: seq<string>)
    requires !IsPositional(s) && s != "--"
    ensures Marked(env, st, Handle(env, st, s, rest).state)
  {
    hide Marked, SetFlag, ShortOptions;
    if s[1] != '-' {
      ShortOptionsMark(env, st, s[1..], rest);
    } else {
      forall flag, value
        ensures Marked(env, st, SetFlag(env, st, flag, value))
      {
        MarkedOnce(env, st, flag, value);
      }
      MarkedNothing(env, st, st);
    }
  }

  lemma {:induction false} ParseMarks(env: Env, st: State, args: seq<string>)
    ensures Marked(env, st, Parse(env, st, args).state)
    decreases |args|
  {
    hide Marked, Handle;
    if args == [] {
      MarkedNothing(env, st, st);
      return;
    }
    var s, rest := args[0], args[1..];
    if IsPositional(s) {
      var next := st.(args := st.args + [s]);
      MarkedNothing(env, st, next);
      if env.interspersed {
        ParseMarks(env, next, rest);
        MarkedTwice(env, st, next, Parse(env, next, rest).state);
      } else {
        MarkedNothing(env, st, st.(args := st.args + [s] + rest));
      }
    } else if s == "--" {
      MarkedNothing(env, st, st.(args := st.args + rest));
    } else {
      HandleMarks(env, st, s, rest);
      var step := Handle(env, st, s, rest);
      if step.Next? {
        ParseMarks(env, step.state, step.rest);
        MarkedTwice(env, st, step.state, Parse(env, step.state, step.rest).state);
      }
    }
  }

  lemma {:induction false} ReplayMarks(env: Env, actual: map<string, Flag>, calls: seq<Call>, k: nat, name: string)
    requires k <= |calls|
    ensures name in Replay(env, actual, calls, k) <==>
      name in actual ||
      exists i :: k <= i < |calls| && calls[i].flag.name == name && AcceptedAt(env, calls, i)
    decreases |calls|
  {
    if |calls| > k {
      var n := |calls| - 1;
      var front := calls[..n];
      ReplayMarks(env, actual, front, k, name);
      SameAcceptance(env, calls, n);
      assert front[..] == front;
    }
  }

  lemma SameAcceptance(env: Env, calls: seq<Call>, n: nat)
    requires n <= |calls|
    ensures forall i :: 0 <= i < n ==>
      calls[..n][i] == calls[i] && (AcceptedAt(env, calls[..n], i) <==> AcceptedAt(env, calls, i))
  {
    forall i | 0 <= i < n
      ensures calls[..n][i] == calls[i] && (AcceptedAt(env, calls[..n], i) <==> AcceptedAt(env, calls, i))
    {
      assert calls[..n][..i] == calls[..i];
    }
  }

  /** After any parse, failed ones too, a name is marked as set if and only if it was before or
      one of the new Set calls on its flag was accepted. */
  lemma MarkedExactly(env: Env, st: State, args: seq<string>, name: string)
    ensures var after := Parse(env, st, args).state;
      && st.calls <= after.calls
      && (name in after.actual <==>
            name in st.actual ||
            exists i :: |st.calls| <= i < |after.calls| && after.calls[i].flag.name == name
                        && AcceptedAt(env, after.calls, i))
  {
    hide Parse, Replay, AcceptedAt;
    ParseMarks(env, st, args);
    ReplayMarks(env, st.actual, Parse(env, st, args).state.calls, |st.calls|, name);
  }
}
