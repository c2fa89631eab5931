/** flag.FlagSet: parsing a command line against a set of defined flags. A Go string is a sequence of
    its bytes, written as characters here. */
module Flag {
  import opened Base

  /** One argument that names a flag: -name, --name, -name=value or --name=value. */
  datatype Arg = Arg(double: bool, name: string, value: Option<string>)

  /** A flag as it stands on the command line; next is the value given as an argument of its own. */
  datatype Setting = Setting(flag: Arg, next: Option<string>)

  datatype FlagError =
    | BadSyntax(arg: string)
    | HelpRequested
    | NotDefined(name: string)
    | NeedsArgument(name: string)
    | InvalidBool(value: string, name: string)
    | InvalidBoolFlag(name: string)
    | InvalidValue(value: string, name: string)

  datatype ErrorHandling = ContinueOnError | ExitOnError | PanicOnError

  datatype Outcome = Returned(err: Option<FlagError>) | Exited(code: int) | Panicked(cause: FlagError)

  datatype Definition = Defined | BeginsWithDash | ContainsEquals | Redefined | SetBeforeDefined

  /** The names of a flag set, with whether each is a boolean flag. */
  type Formal = map<string, bool>

  /** A Value's Set: the variables behind all flags before and after, and whether it returned nil. Flags
      may share variables, and a failing Set may have changed them. */
  type Setter<!W> = (string, string, W) -> (W, bool)

  predicate NameOk(name: string) {
    (name != "" ==> name[0] != '-') && '=' !in name
  }

  predicate WellNamed(formal: Formal) {
    forall name :: name in formal ==> NameOk(name)
  }

  function ArgText(a: Arg): string {
    (if a.double then "--" else "-") + a.name + (if a.value.Some? then "=" + a.value.value else "")
  }

  predicate GoodArg(a: Arg) {
    a.name != "" && NameOk(a.name)
  }

  function Text(s: Setting): seq<string> {
    [ArgText(s.flag)] + if s.next.Some? then [s.next.value] else []
  }

  /** s is a setting of a defined flag that has a name; only a flag that is not boolean and has no =value
      takes the next argument. */
  predicate Fits(formal: Formal, s: Setting) {
    && s.flag.name != "" && s.flag.name in formal
    && (s.next.Some? <==> !formal[s.flag.name] && s.flag.value.None?)
  }

  predicate AllFit(formal: Formal, settings: seq<Setting>) {
    forall s :: s in settings ==> Fits(formal, s)
  }

  function ValueOf(s: Setting): string {
    if s.flag.value.Some? then s.flag.value.value
    else if s.next.Some? then s.next.value
    else "true"
  }

  /** The settings in order, as they stand on the command line. */
  function Rendered(settings: seq<Setting>): seq<string> {
    if settings == [] then [] else Text(settings[0]) + Rendered(settings[1..])
  }

  /** The variables after the settings, or None if one is rejected. */
  function Applied<W>(setter: Setter<W>, settings: seq<Setting>, vars: W): Option<W> {
    if settings == [] then Some(vars)
    else
      var (vars', ok) := setter(settings[0].flag.name, ValueOf(settings[0]), vars);
      if ok then Applied(setter, settings[1..], vars') else None
  }

  function Names(settings: seq<Setting>): set<string> {
    set s | s in settings :: s.flag.name
  }

  /** Where flags end: no argument, an argument that is no flag, or "--". */
  predicate Ends(args: seq<string>) {
    args == [] || |args[0]| < 2 || args[0][0] != '-' || args[0] == "--"
  }

  function AfterEnd(args: seq<string>): seq<string> {
    if args != [] && args[0] == "--" then args[1..] else args
  }

  ghost predicate Malformed(text: string) {
    && |text| >= 2 && text[0] == '-' && text != "--"
    && forall a: Arg {:trigger ArgText(a)} :: GoodArg(a) ==> ArgText(a) != text
  }

  predicate Leads(s: Setting, args: seq<string>) {
    args != [] && GoodArg(s.flag) && args[0] == ArgText(s.flag)
  }

  /** args begin with a flag whose value, if it needs one, has not been looked for yet. */
  predicate Bare(s: Setting, args: seq<string>) {
    Leads(s, args) && s.next.None?
  }

  predicate Rejected<W>(formal: Formal, setter: Setter<W>, s: Setting, args: seq<string>, vars: W) {
    Fits(formal, s) && Text(s) <= args && !setter(s.flag.name, ValueOf(s), vars).1
  }

  /** Why parsing stops with err at args; s is the flag that args begin with. */
  ghost predicate Explains<W>(formal: Formal, setter: Setter<W>, s: Setting, args: seq<string>, vars: W,
                              err: FlagError) {
    var name := s.flag.name;
    match err
    case BadSyntax(text) => args != [] && text == args[0] && Malformed(text)
    case HelpRequested => Bare(s, args) && name !in formal && name in {"help", "h"}
    case NotDefined(n) => Bare(s, args) && name !in formal && name !in {"help", "h"} && n == name
    case NeedsArgument(n) =>
      Bare(s, args) && name in formal && !formal[name] && s.flag.value.None? && |args| == 1 && n == name
    case InvalidBool(v, n) =>
      Rejected(formal, setter, s, args, vars) && formal[name] && s.flag.value == Some(v) && n == name
    case InvalidBoolFlag(n) =>
      Rejected(formal, setter, s, args, vars) && formal[name] && s.flag.value.None? && n == name
    case InvalidValue(v, n) => Rejected(formal, setter, s, args, vars) && !formal[name] && v == ValueOf(s) && n == name
  }

  /** The arguments left when parsing stops with err at args. */
  function AfterError(s: Setting, args: seq<string>, err: FlagError): seq<string>
    requires err.BadSyntax? || |Text(s)| <= |args|
  {
    if err.BadSyntax? then args else args[|Text(s)|..]
  }

  /** The variables then: a refused value may still have left its mark. */
  function VarsAfter<W>(formal: Formal, setter: Setter<W>, s: Setting, args: seq<string>, vars: W): W {
    if Rejected(formal, setter, s, args, vars) then setter(s.flag.name, ValueOf(s), vars).0 else vars
  }

  /** An argument has one reading at most. */
  lemma ArgUnique(a: Arg, b: Arg)
    requires GoodArg(a) && GoodArg(b) && ArgText(a) == ArgText(b)
    ensures a == b
  {
    var t := ArgText(a);
    assert a.double <==> t[1] == '-';
    assert b.double <==> t[1] == '-';
    var k := if a.double then 2 else 1;
    assert t[k..] == Body(a) == Body(b);
    BodyUnique(a, b);
  }

  function Body(a: Arg): string {
    a.name + (if a.value.Some? then "=" + a.value.value else "")
  }

  lemma BodyEquals(a: Arg, k: nat)
    requires '=' !in a.name && k < |Body(a)| && k <= |a.name|
    ensures Body(a)[k] == '=' <==> k == |a.name|
  {
    assert k < |a.name| ==> Body(a)[k] == a.name[k];
  }

  lemma BodyUnique(a: Arg, b: Arg)
    requires '=' !in a.name && '=' !in b.name && Body(a) == Body(b)
    ensures a.name == b.name && a.value == b.value
  {
    if |a.name| < |b.name| {
      BodyEquals(a, |a.name|);
      BodyEquals(b, |a.name|);
    } else if |b.name| < |a.name| {
      BodyEquals(a, |b.name|);
      BodyEquals(b, |b.name|);
    }
    assert a.name == Body(a)[..|a.name|] == b.name;
    assert a.value.Some? ==> a.value.value == Body(a)[|a.name| + 1..];
    assert b.value.Some? ==> b.value.value == Body(b)[|b.name| + 1..];
  }

  lemma ArgShape(a: Arg)
    requires GoodArg(a)
    ensures |ArgText(a)| >= 2 && ArgText(a)[0] == '-' && ArgText(a) != "--"
  {
    assert !a.double ==> ArgText(a)[1] == a.name[0];
    assert a.double ==> |ArgText(a)| > 2;
  }

  /** What follows the dashes cannot be read as a flag if it begins with - or =. */
  lemma BadStart(text: string, k: nat)
    requires 1 <= k <= 2 && k < |text| && text[0] == '-' && (k == 2 <==> text[1] == '-')
    requires text[k] == '-' || text[k] == '='
    ensures Malformed(text)
  {
    forall a: Arg | GoodArg(a)
      ensures ArgText(a) != text
    {
      assert a.double ==> ArgText(a)[1] == '-' && ArgText(a)[2] == a.name[0];
      assert !a.double ==> ArgText(a)[1] == a.name[0];
    }
  }

  class FlagSet<W> {
    const setter: Setter<W>
    const handling: ErrorHandling
    var vars: W
    var formal: Formal
    var actual: set<string>
    var undef: set<string>
    var args: seq<string>
    var parsed: bool

    ghost predicate Valid()
      reads this
    {
      WellNamed(formal) && actual <= formal.Keys && undef !! formal.Keys
    }

    constructor (setter: Setter<W>, handling: ErrorHandling, vars: W)
      ensures Valid() && this.setter == setter && this.handling == handling && this.vars == vars
      ensures formal == map[] && actual == {} && undef == {} && args == [] && !parsed
    {
      this.setter, this.handling, this.vars := setter, handling, vars;
      formal, actual, undef, args, parsed := map[], {}, {}, [], false;
    }

    /** Var: anything but Defined stands for its panic. */
    method Var(isBool: bool, name: string) returns (r: Definition)
      requires Valid()
      modifies `formal
      ensures Valid()
      ensures r == Defined <==> NameOk(name) && name !in old(formal) && name !in undef
      ensures r == BeginsWithDash <==> name != "" && name[0] == '-'
      ensures r == ContainsEquals <==> '=' in name && r != BeginsWithDash
      ensures r == Redefined <==> NameOk(name) && name in old(formal)
      ensures formal == if r == Defined then old(formal)[name := isBool] else old(formal)
    {
      if |name| > 0 && name[0] == '-' {
        return BeginsWithDash;
      } else if '=' in name {
        return ContainsEquals;
      }
      if name in formal {
        return Redefined;
      }
      if name in undef {
        return SetBeforeDefined;
      }
      formal := formal[name := isBool];
      return Defined;
    }

    /** Set from the program; false stands for its error. */
    method Set(name: string, value: string) returns (ok: bool)
      requires Valid()
      modifies `vars, `actual, `undef
      ensures Valid()
      ensures ok <==> name in formal && setter(name, value, old(vars)).1
      ensures vars == if name in formal then setter(name, value, old(vars)).0 else old(vars)
      ensures actual == if ok then old(actual) + {name} else old(actual)
      ensures undef == if name in formal then old(undef) else old(undef) + {name}
    {
      if name !in formal {
        undef := undef + {name};
        return false;
      }
      var (after, accepted) := setter(name, value, vars);
      vars := after;
      if !accepted {
        return false;
      }
      actual := actual + {name};
      return true;
    }

    /** The loop of parseOne that looks for '='. */
    static method CutEquals(body: string) returns (name: string, value: Option<string>)
      requires body != "" && body[0] != '='
      ensures name != "" && name[0] == body[0] && '=' !in name
      ensures body == name + if value.Some? then "=" + value.value else ""
    {
      var i := 1;
      while i < |body|
        invariant 1 <= i <= |body|
        invariant '=' !in body[..i]
      {
        if body[i] == '=' {
          assert body == body[..i] + ("=" + body[i + 1..]);
          return body[..i], Some(body[i + 1..]);
        }
        i := i + 1;
      }
      assert body[..i] == body;
      assert body == body + "";
      return body, None;
    }

    /** The head of parseOne: the flag that begins the arguments, a syntax error, or the end. */
    method ReadFlag() returns (flag: Option<Arg>, err: Option<FlagError>)
      modifies `args
      ensures flag.Some? ==> err == None && old(args) != [] && GoodArg(flag.value)
                             && old(args)[0] == ArgText(flag.value) && args == old(args)[1..]
      ensures flag.None? && err.None? ==> Ends(old(args)) && args == AfterEnd(old(args))
      ensures err.Some? ==>
                old(args) != [] && err == Some(BadSyntax(old(args)[0])) && Malformed(old(args)[0]) && args == old(args)
    {
      if |args| == 0 {
        return None, None;
      }
      var s := args[0];
      if |s| < 2 || s[0] != '-' {
        return None, None;
      }
      var numMinuses := 1;
      if s[1] == '-' {
        numMinuses := 2;
        if |s| == 2 {
          args := args[1..];
          return None, None;
        }
      }
      var body := s[numMinuses..];
      if |body| == 0 || body[0] == '-' || body[0] == '=' {
        BadStart(s, numMinuses);
        return None, Some(BadSyntax(s));
      }
      args := args[1..];
      var name, value := CutEquals(body);
      flag := Some(Arg(numMinuses == 2, name, value));
      assert s == s[..numMinuses] + body;
      assert s == ArgText(flag.value);
      return flag, None;
    }

    /** parseOne; s is the setting that was seen or refused. */
    method ParseOne() returns (seen: bool, err: Option<FlagError>, ghost s: Setting)
      requires Valid()
      modifies `args, `vars, `actual
      ensures Valid() && !(seen && err.Some?)
      ensures seen ==>
                && Fits(formal, s) && old(args) == Text(s) + args
                && setter(s.flag.name, ValueOf(s), old(vars)) == (vars, true)
                && actual == old(actual) + {s.flag.name}
      ensures !seen ==> actual == old(actual)
      ensures !seen && err.None? ==> Ends(old(args)) && args == AfterEnd(old(args)) && vars == old(vars)
      ensures err.Some? ==>
                && Explains(formal, setter, s, old(args), old(vars), err.value)
                && (err.value.BadSyntax? || |Text(s)| <= |old(args)|) && args == AfterError(s, old(args), err.value)
                && vars == VarsAfter(formal, setter, s, old(args), old(vars))
    {
      s := Setting(Arg(false, "", None), None);
      var flag, e := ReadFlag();
      if flag.None? {
        return false, e, s;
      }
      var name, value := flag.value.name, flag.value.value;
      s := Setting(flag.value, None);
      assert old(args) == [old(args)[0]] + args;
      if name !in formal {
        if name == "help" || name == "h" {
          return false, Some(HelpRequested), s;
        }
        return false, Some(NotDefined(name)), s;
      }
      var ok: bool;
      if formal[name] {
        var text := if value.Some? then value.value else "true";
        vars, ok := setter(name, text, vars).0, setter(name, text, vars).1;
        if !ok {
          return false, Some(if value.Some? then InvalidBool(text, name) else InvalidBoolFlag(name)), s;
        }
      } else {
        var text := "";
        if value.Some? {
          text := value.value;
        } else if |args| > 0 {
          text := args[0];
          s := s.(next := Some(text));
          args := args[1..];
        } else {
          return false, Some(NeedsArgument(name)), s;
        }
        assert old(args) == Text(s) + args;
        vars, ok := setter(name, text, vars).0, setter(name, text, vars).1;
        if !ok {
          return false, Some(InvalidValue(text, name)), s;
        }
      }
      actual := actual + {name};
      return true, None, s;
    }

    /** Parse: what it reads is a rendering of settings of defined flags, applied in order, up to the end
        of the flags or to the first argument it refuses. */
    method Parse(arguments: seq<string>)
      returns (r: Outcome, ghost settings: seq<Setting>, ghost last: Setting, ghost tail: seq<string>,
               ghost error: Option<FlagError>)
      requires Valid()
      modifies `args, `vars, `actual, `parsed
      ensures Valid() && parsed
      ensures AllFit(formal, settings) && arguments == Rendered(settings) + tail
      ensures actual == old(actual) + Names(settings)
      ensures Applied(setter, settings, old(vars)).Some?
      ensures r == if error.Some? then Handled(handling, error.value) else Returned(None)
      ensures error.None? ==> Ends(tail) && args == AfterEnd(tail) && Some(vars) == Applied(setter, settings, old(vars))
      ensures error.Some? ==>
                var before := Applied(setter, settings, old(vars)).value;
                && Explains(formal, setter, last, tail, before, error.value)
                && (error.value.BadSyntax? || |Text(last)| <= |tail|) && args == AfterError(last, tail, error.value)
                && vars == VarsAfter(formal, setter, last, tail, before)
    {
      parsed := true;
      args := arguments;
      settings, tail := [], args;
      assert arguments == Rendered(settings) + args;
      while true
        invariant Valid() && parsed && tail == args
        invariant AllFit(formal, settings) && arguments == Rendered(settings) + args
        invariant actual == old(actual) + Names(settings)
        invariant Applied(setter, settings, old(vars)) == Some(vars)
        decreases |args|
      {
        tail := args;
        var seen, err;
        seen, err, last := ParseOne();
        if seen {
          RenderedMore(settings, last, args);
          AppliedMore(setter, settings, last, old(vars));
          settings, tail := settings + [last], args;
          continue;
        }
        error := err;
        if err == None {
          r := Returned(None);
          return;
        }
        match handling {
          case ContinueOnError => r := Returned(err);
          case ExitOnError =>
            if err.value == HelpRequested {
              r := Exited(0);
            } else {
              r := Exited(2);
            }
          case PanicOnError => r := Panicked(err.value);
        }
        return;
      }
    }
  }

  function Handled(handling: ErrorHandling, err: FlagError): Outcome {
    match handling
    case ContinueOnError => Returned(Some(err))
    case ExitOnError => Exited(if err == HelpRequested then 0 else 2)
    case PanicOnError => Panicked(err)
  }

  lemma RenderedFirst(settings: seq<Setting>, rest: seq<string>)
    requires settings != []
    ensures Rendered(settings) + rest == Text(settings[0]) + (Rendered(settings[1..]) + rest)
  {
  }

  lemma {:induction false} RenderedMore(settings: seq<Setting>, s: Setting, rest: seq<string>)
    ensures Rendered(settings) + (Text(s) + rest) == Rendered(settings + [s]) + rest
  {
    if settings == [] {
      assert [s][1..] == [];
    } else {
      assert (settings + [s])[1..] == settings[1..] + [s];
      RenderedMore(settings[1..], s, rest);
      var head := Text(settings[0]);
      assert (head + Rendered(settings[1..])) + (Text(s) + rest) == head + (Rendered(settings[1..]) + (Text(s) + rest));
    }
  }

  lemma {:induction false} AppliedMore<W>(setter: Setter<W>, settings: seq<Setting>, s: Setting, vars: W)
    requires Applied(setter, settings, vars).Some?
    ensures Applied(setter, settings + [s], vars) ==
            var (vars', ok) := setter(s.flag.name, ValueOf(s), Applied(setter, settings, vars).value);
            if ok then Some(vars') else None
  {
    if settings == [] {
      assert [s][1..] == [];
    } else {
      assert (settings + [s])[1..] == settings[1..] + [s];
      AppliedMore(setter, settings[1..], s, setter(settings[0].flag.name, ValueOf(settings[0]), vars).0);
    }
  }

  /** A fitting setting at the head of the arguments is the only one. */
  lemma FirstUnique(formal: Formal, s: Setting, rest: seq<string>, t: Setting, rest': seq<string>)
    requires WellNamed(formal) && Fits(formal, s) && Fits(formal, t)
    requires Text(s) + rest == Text(t) + rest'
    ensures s == t && rest == rest'
  {
    var all := Text(s) + rest;
    assert all[0] == ArgText(s.flag) == ArgText(t.flag);
    ArgUnique(s.flag, t.flag);
    assert s.next.Some? ==> all[1] == s.next.value;
    assert t.next.Some? ==> all[1] == t.next.value;
    assert rest == all[|Text(s)|..] == rest';
  }

  /** Two readings of the same arguments agree as far as both go. */
  lemma {:induction false} ReadingsAgree(formal: Formal, a: seq<Setting>, rest: seq<string>,
                                         b: seq<Setting>, rest': seq<string>)
    requires WellNamed(formal) && AllFit(formal, a) && AllFit(formal, b) && |a| <= |b|
    requires Rendered(a) + rest == Rendered(b) + rest'
    ensures a <= b && rest == Rendered(b[|a|..]) + rest'
  {
    if a == [] {
      assert b[0..] == b;
    } else {
      var more, more' := Rendered(a[1..]) + rest, Rendered(b[1..]) + rest';
      RenderedFirst(a, rest);
      RenderedFirst(b, rest');
      FirstUnique(formal, a[0], more, b[0], more');
      ReadingsAgree(formal, a[1..], rest, b[1..], rest');
      assert b[1..][|a| - 1..] == b[|a|..];
    }
  }

  /** Arguments that begin with a fitting setting neither end the flags nor explain an error, unless the
      setting is rejected. */
  lemma StartsWithSetting<W>(formal: Formal, setter: Setter<W>, s: Setting, rest: seq<string>, vars: W)
    requires WellNamed(formal) && Fits(formal, s)
    ensures !Ends(Text(s) + rest)
    ensures setter(s.flag.name, ValueOf(s), vars).1 ==>
              forall t: Setting, err: FlagError :: !Explains(formal, setter, t, Text(s) + rest, vars, err)
  {
    var all := Text(s) + rest;
    ArgShape(s.flag);
    assert all[0] == ArgText(s.flag);
    if setter(s.flag.name, ValueOf(s), vars).1 {
      forall t: Setting, err: FlagError
        ensures !Explains(formal, setter, t, all, vars, err)
      {
        if Explains(formal, setter, t, all, vars, err) {
          if Rejected(formal, setter, t, all, vars) {
            assert all == Text(t) + all[|Text(t)|..];
            FirstUnique(formal, s, rest, t, all[|Text(t)|..]);
          } else if Leads(t, all) {
            ArgUnique(s.flag, t.flag);
          }
        }
      }
    }
  }

  lemma {:induction false} AppliedTo<W>(setter: Setter<W>, settings: seq<Setting>, k: nat, vars: W)
    requires k <= |settings| && Applied(setter, settings, vars).Some?
    ensures Applied(setter, settings[..k], vars).Some?
    ensures k < |settings| ==>
              setter(settings[k].flag.name, ValueOf(settings[k]), Applied(setter, settings[..k], vars).value).1
  {
    if k > 0 {
      assert settings[..k][1..] == settings[1..][..k - 1];
      AppliedTo(setter, settings[1..], k - 1, setter(settings[0].flag.name, ValueOf(settings[0]), vars).0);
    }
  }

  /** A reading that stops is not shorter than one whose settings are all accepted. */
  lemma NotShorter<W>(formal: Formal, setter: Setter<W>, settings: seq<Setting>, tail: seq<string>,
                      found: seq<Setting>, last: Setting, tail': seq<string>, vars: W)
    requires WellNamed(formal) && AllFit(formal, settings) && AllFit(formal, found)
    requires Rendered(settings) + tail == Rendered(found) + tail'
    requires Applied(setter, settings, vars).Some? && Applied(setter, found, vars).Some?
    requires Ends(tail') || exists err :: Explains(formal, setter, last, tail', Applied(setter, found, vars).value, err)
    ensures |found| >= |settings|
  {
    hide Ends, Explains, Text, Fits;
    var k := |found|;
    if k < |settings| {
      ReadingsAgree(formal, found, tail', settings, tail);
      assert found == settings[..k] && settings[k] in settings;
      var rest := Rendered(settings[k..][1..]) + tail;
      RenderedFirst(settings[k..], tail);
      AppliedTo(setter, settings, k, vars);
      StartsWithSetting(formal, setter, settings[k], rest, Applied(setter, found, vars).value);
    }
  }

  /** A reading does not go past the end of the flags. */
  lemma NotLonger(formal: Formal, settings: seq<Setting>, tail: seq<string>, found: seq<Setting>, tail': seq<string>)
    requires WellNamed(formal) && AllFit(formal, settings) && AllFit(formal, found)
    requires Rendered(settings) + tail == Rendered(found) + tail' && Ends(tail) && |settings| <= |found|
    ensures found == settings && tail' == tail
  {
    hide Ends, Explains, Text, Fits;
    ReadingsAgree(formal, settings, tail, found, tail');
    var more := found[|settings|..];
    if more != [] {
      var rest := Rendered(more[1..]) + tail';
      RenderedFirst(more, tail');
      assert more[0] == found[|settings|] && found[|settings|] in found;
      var accept: Setter<int> := (n, v, w) => (w, true);
      StartsWithSetting(formal, accept, more[0], rest, 0);
    }
  }

  /** An error is found before the end of the flags. */
  lemma ErrorBeforeEnd<W>(formal: Formal, setter: Setter<W>, s: Setting, tail: seq<string>, vars: W, err: FlagError)
    requires WellNamed(formal) && Explains(formal, setter, s, tail, vars, err)
    ensures !Ends(tail)
  {
    if Leads(s, tail) {
      ArgShape(s.flag);
    } else {
      assert err.BadSyntax?;
    }
  }

  /** Only one error is found at an argument, and at one setting. */
  lemma ErrorUnique<W>(formal: Formal, setter: Setter<W>, s: Setting, t: Setting, args: seq<string>, vars: W,
                       e: FlagError, f: FlagError)
    requires WellNamed(formal)
    requires Explains(formal, setter, s, args, vars, e) && Explains(formal, setter, t, args, vars, f)
    ensures e == f && (e.BadSyntax? || (s == t && |Text(s)| <= |args|))
    ensures VarsAfter(formal, setter, s, args, vars) == VarsAfter(formal, setter, t, args, vars)
  {
    RejectedLeads(formal, setter, s, args, vars);
    RejectedLeads(formal, setter, t, args, vars);
    if Leads(s, args) && Leads(t, args) {
      ArgUnique(s.flag, t.flag);
    }
    if Rejected(formal, setter, s, args, vars) && Rejected(formal, setter, t, args, vars) {
      FirstUnique(formal, s, args[|Text(s)|..], t, args[|Text(t)|..]);
    }
  }

  lemma RejectedLeads<W>(formal: Formal, setter: Setter<W>, s: Setting, args: seq<string>, vars: W)
    requires WellNamed(formal)
    ensures Rejected(formal, setter, s, args, vars) ==> Leads(s, args) && args == Text(s) + args[|Text(s)|..]
  {
    assert Text(s) <= args ==> args[0] == Text(s)[0];
  }

  /** The -name=value form of a setting. */
  function Joined(s: Setting): Setting {
    Setting(s.flag.(value := Some(ValueOf(s))), None)
  }

  function AllJoined(settings: seq<Setting>): seq<Setting> {
    if settings == [] then [] else [Joined(settings[0])] + AllJoined(settings[1..])
  }

  /** The two-argument form of a flag, and the short form of a boolean one, mean the same as -name=value. */
  lemma {:induction false} JoinedIsEquivalent<W>(formal: Formal, setter: Setter<W>, settings: seq<Setting>, vars: W)
    requires AllFit(formal, settings)
    ensures AllFit(formal, AllJoined(settings)) && Names(AllJoined(settings)) == Names(settings)
    ensures Applied(setter, AllJoined(settings), vars) == Applied(setter, settings, vars)
  {
    if settings != [] {
      var s := settings[0];
      assert Fits(formal, s) && ValueOf(Joined(s)) == ValueOf(s);
      assert Names(settings) == {s.flag.name} + Names(settings[1..]);
      assert AllJoined(settings)[1..] == AllJoined(settings[1..]);
      assert Names(AllJoined(settings)) == {s.flag.name} + Names(AllJoined(settings[1..]));
      JoinedIsEquivalent(formal, setter, settings[1..], setter(s.flag.name, ValueOf(s), vars).0);
    }
  }

  /** A reading does not go past an error. */
  lemma NotBeyondError<W>(formal: Formal, setter: Setter<W>, settings: seq<Setting>, tail: seq<string>,
                          found: seq<Setting>, tail': seq<string>, vars: W, s: Setting, err: FlagError)
    requires WellNamed(formal) && AllFit(formal, settings) && AllFit(formal, found)
    requires Rendered(settings) + tail == Rendered(found) + tail' && |settings| <= |found|
    requires Applied(setter, settings, vars).Some? && Applied(setter, found, vars).Some?
    requires Explains(formal, setter, s, tail, Applied(setter, settings, vars).value, err)
    ensures found == settings && tail' == tail
  {
    hide Explains, Text, Fits;
    ReadingsAgree(formal, settings, tail, found, tail');
    var k := |settings|;
    if k < |found| {
      assert found[..k] == settings && found[k] in found;
      RenderedFirst(found[k..], tail');
      AppliedTo(setter, found, k, vars);
      var rest := Rendered(found[k..][1..]) + tail';
      StartsWithSetting(formal, setter, found[k], rest, Applied(setter, settings, vars).value);
    }
  }

  /** Rendering then parsing with an error behind the settings: they are applied, and Parse stops with
      exactly that error, which is handled as the flag set says. */
  method ParseRefused<W>(flags: FlagSet<W>, settings: seq<Setting>, tail: seq<string>,
                         ghost s: Setting, ghost err: FlagError) returns (r: Outcome)
    requires flags.Valid() && AllFit(flags.formal, settings)
    requires Applied(flags.setter, settings, flags.vars).Some?
    requires Explains(flags.formal, flags.setter, s, tail, Applied(flags.setter, settings, flags.vars).value, err)
    modifies flags
    ensures match flags.handling
            case ContinueOnError => r == Returned(Some(err))
            case ExitOnError => r == Exited(if err == HelpRequested then 0 else 2)
            case PanicOnError => r == Panicked(err)
    ensures (err.BadSyntax? || |Text(s)| <= |tail|) && flags.args == AfterError(s, tail, err)
    ensures flags.vars ==
            VarsAfter(flags.formal, flags.setter, s, tail, Applied(flags.setter, settings, old(flags.vars)).value)
    ensures flags.actual == old(flags.actual) + Names(settings)
  {
    hide Explains, Text, Fits;
    ghost var found, last, tail', error;
    ghost var formal, setter, vars := flags.formal, flags.setter, flags.vars;
    r, found, last, tail', error := flags.Parse(Rendered(settings) + tail);
    NotShorter(formal, setter, settings, tail, found, last, tail', vars);
    NotBeyondError(formal, setter, settings, tail, found, tail', vars, s, err);
    var before := Applied(setter, settings, vars).value;
    ErrorBeforeEnd(formal, setter, s, tail, before, err);
    ErrorUnique(formal, setter, s, last, tail, before, err, error.value);
  }

  /** The forms of a setting, with one dash or two, and the value that the setter gets. */
  lemma FormsOfSettings<W>(setter: Setter<W>, name: string, value: string, vars: W)
    ensures var s := Setting(Arg(false, name, Some(value)), None);
            Rendered([s]) == ["-" + name + "=" + value] && Gets(setter, s, value, vars)
    ensures var s := Setting(Arg(true, name, Some(value)), None);
            Rendered([s]) == ["--" + name + "=" + value] && Gets(setter, s, value, vars)
    ensures var s := Setting(Arg(false, name, None), Some(value));
            Rendered([s]) == ["-" + name, value] && Gets(setter, s, value, vars)
    ensures var s := Setting(Arg(true, name, None), Some(value));
            Rendered([s]) == ["--" + name, value] && Gets(setter, s, value, vars)
    ensures var s := Setting(Arg(false, name, None), None);
            Rendered([s]) == ["-" + name] && Gets(setter, s, "true", vars)
    ensures var s := Setting(Arg(true, name, None), None);
            Rendered([s]) == ["--" + name] && Gets(setter, s, "true", vars)
  {
    FormOfSetting(setter, Setting(Arg(false, name, Some(value)), None), vars);
    FormOfSetting(setter, Setting(Arg(true, name, Some(value)), None), vars);
    FormOfSetting(setter, Setting(Arg(false, name, None), Some(value)), vars);
    FormOfSetting(setter, Setting(Arg(true, name, None), Some(value)), vars);
    FormOfSetting(setter, Setting(Arg(false, name, None), None), vars);
    FormOfSetting(setter, Setting(Arg(true, name, None), None), vars);
    assert ("-" + name) + "" == "-" + name && ("--" + name) + "" == "--" + name;
    assert ("-" + name) + ("=" + value) == "-" + name + "=" + value;
    assert ("--" + name) + ("=" + value) == "--" + name + "=" + value;
  }

  /** Every flag can be given as -name=value. Without the value in the same argument, a boolean flag stands
      alone, and any other flag takes the next argument. */
  lemma FormsThatFit(formal: Formal, double: bool, name: string, value: string)
    requires name != ""
    ensures Fits(formal, Setting(Arg(double, name, Some(value)), None)) <==> name in formal
    ensures Fits(formal, Setting(Arg(double, name, None), None)) <==> name in formal && formal[name]
    ensures Fits(formal, Setting(Arg(double, name, None), Some(value))) <==> name in formal && !formal[name]
  {
  }

  lemma FormOfSetting<W>(setter: Setter<W>, s: Setting, vars: W)
    ensures Rendered([s]) == Text(s) && Gets(setter, s, ValueOf(s), vars)
  {
    assert [s][1..] == [] && Text(s) + [] == Text(s);
  }

  ghost predicate Gets<W>(setter: Setter<W>, s: Setting, value: string, vars: W) {
    var (after, ok) := setter(s.flag.name, value, vars);
    Applied(setter, [s], vars) == if ok then Some(after) else None
  }

  /** Rendering then parsing: accepted settings of defined flags, in any mix of forms, are applied in
      order, and the arguments after the end of the flags are left. */
  method ParseRendered<W>(flags: FlagSet<W>, settings: seq<Setting>, tail: seq<string>) returns (r: Outcome)
    requires flags.Valid() && AllFit(flags.formal, settings)
    requires tail == [] || |tail[0]| < 2 || tail[0][0] != '-' || tail[0] == "--"
    requires Applied(flags.setter, settings, flags.vars).Some?
    modifies flags
    ensures r == Returned(None) && flags.args == if tail != [] && tail[0] == "--" then tail[1..] else tail
    ensures Some(flags.vars) == Applied(flags.setter, settings, old(flags.vars))
    ensures flags.actual == old(flags.actual) + Names(settings)
  {
    ghost var found, last, tail', error;
    r, found, last, tail', error := flags.Parse(Rendered(settings) + tail);
    NotShorter(flags.formal, flags.setter, settings, tail, found, last, tail', old(flags.vars));
    NotLonger(flags.formal, settings, tail, found, tail');
    if error.Some? {
      ghost var after := Applied(flags.setter, settings, old(flags.vars)).value;
      ErrorBeforeEnd(flags.formal, flags.setter, last, tail, after, error.value);
    }
  }
}
