/** The flag set: its linked maps, the definition of flags, and the parsing loops. */
module Flags {
  import opened Bytes
  import opened FlagParsing

  datatype ErrorHandling = ContinueOnError | ExitOnError | PanicOnError

  /** How a definition ends: the last two panics come after the flag has been entered. */
  datatype Definition = Defined | Redefined | ShorthandTooLong | ShorthandReused

  datatype ParseResult = Returned(error: Option<Error>) | Exited | Panicked(cause: Error)

  class FlagSet {
    const errorHandling: ErrorHandling
    /** Which Set calls succeed, given the ones made before. */
    const accepts: (seq<Call>, Flag, string) -> bool
    var interspersed: bool
    var parsed: bool
    var formal: map<string, Flag>
    var actual: map<string, Flag>
    var shorthands: map<char, Flag>
    var args: seq<string>
    /** The Set calls made on the values of the flags. */
    var calls: seq<Call>

    /** The maps agree: every formal key is its flag's name, every actual entry is the formal
        flag of that name, and every shorthand letter leads to a formal flag carrying it. */
    ghost predicate Valid()
      reads this
    {
      && (forall name <- formal :: formal[name].name == name)
      && (forall name <- actual :: name in formal && actual[name] == formal[name])
      && (forall c <- shorthands ::
            && shorthands[c].name in formal && formal[shorthands[c].name] == shorthands[c]
            && shorthands[c].shorthand == [c])
    }

    /** Every formal flag with a shorthand can be reached by it. */
    ghost predicate AllRegistered()
      reads this
    {
      forall name <- formal ::
        formal[name].shorthand != "" ==>
          && |formal[name].shorthand| == 1
          && formal[name].shorthand[0] in shorthands
          && shorthands[formal[name].shorthand[0]] == formal[name]
    }

    ghost function Environment(): Env
      reads this
    {
      Env(formal, shorthands, interspersed, accepts)
    }

    ghost function View(): State
      reads this
    {
      State(calls, actual, args)
    }

    constructor (errorHandling: ErrorHandling, accepts: (seq<Call>, Flag, string) -> bool)
      ensures Valid() && AllRegistered()
      ensures formal == map[] && actual == map[] && shorthands == map[]
      ensures args == [] && calls == [] && interspersed && !parsed
      ensures this.errorHandling == errorHandling && this.accepts == accepts
    {
      this.errorHandling, this.accepts := errorHandling, accepts;
      interspersed, parsed := true, false;
      formal, actual, shorthands, args, calls := map[], map[], map[], [], [];
    }

    /** Defines a flag. */
    method VarP(name: string, shorthand: string, isBool: bool) returns (flag: Flag, result: Definition)
      requires Valid()
      modifies this`formal, this`shorthands
      ensures Valid() && fresh(flag)
      ensures flag.name == name && flag.shorthand == shorthand && flag.isBool == isBool
      ensures result == Redefined <==> name in old(formal)
      ensures result == ShorthandTooLong <==> name !in old(formal) && |shorthand| > 1
      ensures result == ShorthandReused <==>
        name !in old(formal) && |shorthand| == 1 && shorthand[0] in old(shorthands)
      ensures formal == if result == Redefined then old(formal) else old(formal)[name := flag]
      ensures shorthands ==
        if result == Defined && shorthand != "" then old(shorthands)[shorthand[0] := flag]
        else old(shorthands)
      ensures old(AllRegistered()) ==> (AllRegistered() <==> result in {Defined, Redefined})
    {
      flag := new Flag(name, shorthand, isBool);
      if name in formal {
        return flag, Redefined;
      }
      formal := formal[name := flag];
      if |shorthand| == 0 {
        return flag, Defined;
      }
      if |shorthand| > 1 {
        assert name in formal;
        return flag, ShorthandTooLong;
      }
      var c := shorthand[0];
      if c in shorthands {
        assert name in formal;
        return flag, ShorthandReused;
      }
      shorthands := shorthands[c := flag];
      assert shorthand == [c];
      return flag, Defined;
    }

    /** Set on a flag's value. */
    method SetValue(flag: Flag, value: string) returns (ok: bool)
      modifies this`calls
      ensures calls == old(calls) + [Call(flag, value)]
      ensures ok == accepts(old(calls), flag, value)
    {
      ok := accepts(calls, flag, value);
      calls := calls + [Call(flag, value)];
    }

    /** Sets a flag by name. */
    method Set(name: string, value: string) returns (ok: bool)
      requires Valid()
      modifies this`calls, this`actual
      ensures Valid()
      ensures name !in formal ==> !ok && View() == old(View())
      ensures name in formal ==>
        && ok == Accepted(Environment(), old(View()), formal[name], value)
        && View() == SetFlag(Environment(), old(View()), formal[name], value)
    {
      if name !in formal {
        return false;
      }
      var flag := formal[name];
      ok := SetValue(flag, value);
      if !ok {
        return false;
      }
      actual := actual[name := flag];
    }

    method SetFlagValue(flag: Flag, value: string) returns (ok: bool)
      requires Valid() && flag.name in formal && formal[flag.name] == flag
      modifies this`calls, this`actual
      ensures Valid()
      ensures ok == Accepted(Environment(), old(View()), flag, value)
      ensures View() == SetFlag(Environment(), old(View()), flag, value)
    {
      ok := SetValue(flag, value);
      if !ok {
        return false;
      }
      actual := actual[flag.name := flag];
    }

    /** A step of the parsing loop: what is left of the arguments, or the error. */
    ghost predicate Took(rest: seq<string>, err: Option<Error>, step: Step)
      reads this
    {
      && View() == step.state
      && match step
         case Next(_, left) => err == None && rest == left
         case Abort(_, error) => err == Some(error)
    }

    method ParseLong(s: string, args0: seq<string>) returns (err: Option<Error>)
      requires Valid() && |s| > 2 && s[..2] == "--"
      modifies this`calls, this`actual
      ensures Valid()
      ensures Took(args0, err, LongOption(Environment(), old(View()), s[2..], args0))
    {
      var name := s[2..];
      if |name| == 0 || name[0] == '-' || name[0] == '=' {
        return Some(BadSyntax);
      }
      var eq := FindEquals(name);
      var body := name;
      if eq.Some? {
        name := body[..eq.value];
      }
      if name !in formal {
        if name == "help" {
          return Some(HelpRequested);
        }
        return Some(UnknownFlag);
      }
      var flag := formal[name];
      if eq.None? {
        if !flag.isBool {
          return Some(LongNeedsArgument);
        }
        var _ := SetFlagValue(flag, "true");
      } else {
        var ok := SetFlagValue(flag, body[eq.value + 1..]);
        if !ok {
          return Some(InvalidArgument);
        }
      }
      return None;
    }

    method ParseShort(shorthandLetters: string, args0: seq<string>) returns (rest: seq<string>, err: Option<Error>)
      requires Valid()
      modifies this`calls, this`actual
      ensures Valid()
      ensures Took(rest, err, ShortOptions(Environment(), old(View()), shorthandLetters, args0))
    {
      rest := args0;
      var i := 0;
      assert shorthandLetters[0..] == shorthandLetters;
      while i < |shorthandLetters|
        invariant Valid() && 0 <= i <= |shorthandLetters| && rest == args0
        invariant ShortOptions(Environment(), View(), shorthandLetters[i..], args0)
          == ShortOptions(Environment(), old(View()), shorthandLetters, args0)
      {
        var c := shorthandLetters[i];
        assert shorthandLetters[i..][1..] == shorthandLetters[i + 1..];
        if c !in shorthands {
          if c == 'h' {
            return rest, Some(HelpRequested);
          }
          return rest, Some(UnknownShorthand);
        }
        var flag := shorthands[c];
        if flag.isBool {
          var _ := SetFlagValue(flag, "true");
          i := i + 1;
          continue;
        }
        if i < |shorthandLetters| - 1 {
          var ok := SetFlagValue(flag, shorthandLetters[i + 1..]);
          if !ok {
            return rest, Some(InvalidArgument);
          }
          return rest, None;
        }
        if |rest| == 0 {
          return rest, Some(ShortNeedsArgument(flag));
        }
        var ok := SetFlagValue(flag, rest[0]);
        if !ok {
          return rest, Some(InvalidArgument);
        }
        rest := rest[1..];
        return rest, None;
      }
      return rest, None;
    }

    /** The parsing loop. */
    method ParseArgs(arguments: seq<string>) returns (err: Option<Error>)
      requires Valid()
      modifies this`calls, this`actual, this`args
      ensures Valid()
      ensures var p := FlagParsing.Parse(Environment(), old(View()), arguments);
        && View() == p.state
        && err == match p.outcome case Failed(error) => Some(error) case _ => None
    {
      hide ShortOptions, LongOption;
      var rest := arguments;
      while |rest| > 0
        invariant Valid()
        invariant FlagParsing.Parse(Environment(), View(), rest)
          == FlagParsing.Parse(Environment(), old(View()), arguments)
        decreases |rest|
      {
        var s := rest[0];
        var before := rest;
        rest := rest[1..];
        if |s| == 0 || s[0] != '-' || |s| == 1 {
          if !interspersed {
            args := args + [s];
            args := args + rest;
            return None;
          }
          args := args + [s];
          continue;
        }
        if s[1] == '-' {
          if |s| == 2 {
            assert s == "--";
            args := args + rest;
            return None;
          }
          assert s[..2] == "--";
          err := ParseLong(s, rest);
        } else {
          rest, err := ParseShort(s[1..], rest);
        }
        if err.Some? {
          return;
        }
      }
      return None;
    }

    /** Parses a command line; what an error does depends on the error handling. */
    method Parse(arguments: seq<string>) returns (result: ParseResult)
      requires Valid()
      modifies this`calls, this`actual, this`args, this`parsed
      ensures Valid() && parsed
      ensures var p := FlagParsing.Parse(Environment(), State(old(calls), old(actual), []), arguments);
        && View() == p.state
        && result ==
          match p.outcome
          case Failed(error) =>
            (match errorHandling
             case ContinueOnError => Returned(Some(error))
             case ExitOnError => Exited
             case PanicOnError => Panicked(error))
          case _ => Returned(None)
    {
      parsed := true;
      args := [];
      var err := ParseArgs(arguments);
      if err.Some? {
        match errorHandling
        case ContinueOnError => return Returned(err);
        case ExitOnError => return Exited;
        case PanicOnError => return Panicked(err.value);
      }
      return Returned(None);
    }
  }

  /** Two flags with the shorthand x: the second definition panics, and a program that recovers
      has a flag b whose letter leads to a. */
  method ReusedShorthandExample(flags: FlagSet) returns (a: Flag, b: Flag)
    requires flags.Valid() && flags.formal == map[] && flags.shorthands == map[]
    modifies flags
    ensures flags.Valid() && !flags.AllRegistered()
    ensures "b" in flags.formal && flags.formal["b"] == b && b.shorthand == "x"
    ensures 'x' in flags.shorthands && flags.shorthands['x'] == a && a.name == "a"
  {
    var result;
    a, result := flags.VarP("a", "x", true);
    assert "x"[0] == 'x';
    b, result := flags.VarP("b", "x", true);
    assert result == ShorthandReused;
    assert flags.formal["b"].shorthand[0] == 'x';
  }
}
