/**
 The argument loop at the top of `UploadGPSData.main`: a left fold over the
 tokens into the six settings the tool runs with. Five flag prefixes are
 tried in a fixed order; a flag token sets its setting to the text after the
 first `=` and before any second `=`, and every other token is taken as the
 directory to upload. A flag token with nothing usable after its `=`, or a
 port that is not a Java `int`, makes `main` throw.
 */
module CommandLine {
  import opened Wrappers
  import opened JavaText

  /** The settings `main` collects; `None` is a Java `null`. */
  datatype Config = Config(
    dirPath: Option<string>,
    mode: Option<string>,
    dbName: Option<string>,
    host: Option<string>,
    port: int,
    username: Option<string>)

  /** The values `main` starts from: every reference `null`, the port 0. */
  const Initial: Config := Config(None, None, None, None, 0, None)

  datatype Flag = TypeFlag | DbNameFlag | HostFlag | PortFlag | UsernameFlag

  function Prefix(f: Flag): string {
    match f
    case TypeFlag => "--type="
    case DbNameFlag => "--dbname="
    case HostFlag => "--host="
    case PortFlag => "--port="
    case UsernameFlag => "--username="
  }

  /** The flag of the first branch of `main`'s if-chain that `token` enters. */
  function FlagOf(token: string): (r: Option<Flag>)
    ensures r.Some? ==> Prefix(r.value) <= token
    ensures r.None? ==> forall f :: !(Prefix(f) <= token)
  {
    if Prefix(TypeFlag) <= token then Some(TypeFlag)
    else if Prefix(DbNameFlag) <= token then Some(DbNameFlag)
    else if Prefix(HostFlag) <= token then Some(HostFlag)
    else if Prefix(PortFlag) <= token then Some(PortFlag)
    else if Prefix(UsernameFlag) <= token then Some(UsernameFlag)
    else None
  }

  /** Where a flag's value starts: just past the `=` that ends its prefix. */
  function Rest(token: string, f: Flag): string
    requires Prefix(f) <= token
  {
    token[|Prefix(f)|..]
  }

  /** The token carries a value: something other than `=` follows the prefix. */
  predicate HasValue(token: string, f: Flag)
    requires Prefix(f) <= token
  {
    HasOther(Rest(token, f), '=')
  }

  /** The value a flag token carries: what follows the prefix, up to the next `=`. */
  function FlagText(token: string, f: Flag): string
    requires Prefix(f) <= token
  {
    UntilSep(Rest(token, f), '=')
  }

  /** `arg.split("=")[1]`; `None` is the `ArrayIndexOutOfBoundsException`. */
  function SplitValue(token: string): Option<string> {
    Field(token, '=', 1)
  }

  lemma SplitValueOfFlag(token: string, f: Flag)
    requires Prefix(f) <= token
    ensures SplitValue(token).Some? <==> HasValue(token, f)
    ensures SplitValue(token).Some? ==> SplitValue(token).value == FlagText(token, f)
  {
    var n := |Prefix(f)| - 1;
    assert token[..n] == Prefix(f)[..n];
    IndexOfUnique(token, '=', n);
    SecondField(token, '=');
    assert AfterFirst(token, '=') == Rest(token, f);
  }

  /** Each field of a config, addressed uniformly. */
  datatype Slot = DirPathSlot | FlagSlot(flag: Flag)
  datatype Setting = Text(text: Option<string>) | Number(n: int)

  function Get(c: Config, s: Slot): Setting {
    match s
    case DirPathSlot => Text(c.dirPath)
    case FlagSlot(TypeFlag) => Text(c.mode)
    case FlagSlot(DbNameFlag) => Text(c.dbName)
    case FlagSlot(HostFlag) => Text(c.host)
    case FlagSlot(PortFlag) => Number(c.port)
    case FlagSlot(UsernameFlag) => Text(c.username)
  }

  /** The port holds a number, every other field a text. */
  predicate Fits(s: Slot, v: Setting) {
    v.Number? <==> s == FlagSlot(PortFlag)
  }

  /** `c` and `d` agree on every field except possibly `s`. */
  predicate OnlyChanged(c: Config, d: Config, s: Slot) {
    && (s != DirPathSlot ==> c.dirPath == d.dirPath)
    && (s != FlagSlot(TypeFlag) ==> c.mode == d.mode)
    && (s != FlagSlot(DbNameFlag) ==> c.dbName == d.dbName)
    && (s != FlagSlot(HostFlag) ==> c.host == d.host)
    && (s != FlagSlot(PortFlag) ==> c.port == d.port)
    && (s != FlagSlot(UsernameFlag) ==> c.username == d.username)
  }

  /** One assignment of `main`'s loop: field `s` of `c` becomes `v`. */
  function Put(c: Config, s: Slot, v: Setting): (d: Config)
    requires Fits(s, v)
    ensures Get(d, s) == v
    ensures OnlyChanged(c, d, s)
  {
    match s
    case DirPathSlot => c.(dirPath := v.text)
    case FlagSlot(TypeFlag) => c.(mode := v.text)
    case FlagSlot(DbNameFlag) => c.(dbName := v.text)
    case FlagSlot(HostFlag) => c.(host := v.text)
    case FlagSlot(PortFlag) => c.(port := v.n)
    case FlagSlot(UsernameFlag) => c.(username := v.text)
  }

  /** The field a token is aimed at: its flag's field, or the directory for any other token. */
  function Target(token: string): Slot {
    match FlagOf(token)
    case None => DirPathSlot
    case Some(f) => FlagSlot(f)
  }

  /** A token that makes the loop throw, whatever came before it. */
  predicate Rejected(token: string) {
    FlagOf(token).Some? &&
    var f := FlagOf(token).value;
    !HasValue(token, f) || (f == PortFlag && ParseInt(FlagText(token, f)).None?)
  }

  /** The exception that ends the loop, with the token that raised it. */
  datatype ArgError =
    | MissingValue(token: string)   // ArrayIndexOutOfBoundsException from split("=")[1]
    | BadPort(token: string)        // NumberFormatException from Integer.parseInt

  /** What one token makes the loop do: store a value in one field, or throw. */
  datatype Action = Assign(slot: Slot, value: Setting) | Throw(error: ArgError)

  predicate WellTyped(a: Action) {
    a.Assign? ==> Fits(a.slot, a.value)
  }

  /**
   The if-chain of the loop applied to one token. A token of none of the five
   flags is the directory; a flag token is rejected when its value is missing
   or, for the port, is not an `int`; otherwise its field receives the text
   between the first and the second `=`, parsed for the port.
   */
  function ActionOf(token: string): (a: Action)
    ensures WellTyped(a)
    ensures a.Throw? <==> Rejected(token)
    ensures a.Throw? ==> a.error.token == token
    ensures a.Throw? ==>
              && FlagOf(token).Some?
              && (a.error.MissingValue? <==> !HasValue(token, FlagOf(token).value))
    ensures a.Assign? ==> a.slot == Target(token)
    ensures FlagOf(token).None? ==> a == Assign(DirPathSlot, Text(Some(token)))
    ensures FlagOf(token).Some? && a.Assign? ==>
              var f := FlagOf(token).value;
              if f == PortFlag then ParseInt(FlagText(token, f)) == Some(a.value.n)
              else a.value == Text(Some(FlagText(token, f)))
  {
    match FlagOf(token)
    case None => Assign(DirPathSlot, Text(Some(token)))
    case Some(f) =>
      SplitValueOfFlag(token, f);
      match SplitValue(token)
      case None => Throw(MissingValue(token))
      case Some(v) =>
        if f != PortFlag then Assign(FlagSlot(f), Text(Some(v)))
        else
          match ParseInt(v)
          case None => Throw(BadPort(token))
          case Some(n) => Assign(FlagSlot(PortFlag), Number(n))
  }

  predicate AllWellTyped(acts: seq<Action>) {
    forall i :: 0 <= i < |acts| ==> WellTyped(acts[i])
  }

  /** The action of every token, in order. */
  function Actions(args: seq<string>): (acts: seq<Action>)
    ensures |acts| == |args|
    ensures forall i :: 0 <= i < |args| ==> acts[i] == ActionOf(args[i])
    ensures AllWellTyped(acts)
  {
    seq(|args|, i requires 0 <= i < |args| => ActionOf(args[i]))
  }

  /** The loop over the actions, from `main`'s initial values: the first throw ends it. */
  function Run(acts: seq<Action>): Result<Config, ArgError>
    requires AllWellTyped(acts)
    decreases |acts|
  {
    if |acts| == 0 then Ok(Initial)
    else
      match Run(acts[..|acts| - 1])
      case Err(e) => Err(e)
      case Ok(c) =>
        match acts[|acts| - 1]
        case Throw(e) => Err(e)
        case Assign(s, v) => Ok(Put(c, s, v))
  }

  /**
   The argument loop of `main`. Interpreting every token first and then
   running the actions is the same as interpreting each token as the loop
   reaches it, since interpreting a token has no effect.
   */
  function ParseArgs(args: seq<string>): Result<Config, ArgError> {
    Run(Actions(args))
  }

  // The loop over actions

  predicate NoThrow(acts: seq<Action>) {
    forall i :: 0 <= i < |acts| ==> acts[i].Assign?
  }

  lemma AllWellTypedPrefix(acts: seq<Action>, n: nat)
    requires AllWellTyped(acts) && n <= |acts|
    ensures AllWellTyped(acts[..n])
  {
    assert forall i :: 0 <= i < n ==> acts[..n][i] == acts[i];
  }

  /** The loop completes exactly when no action throws. */
  lemma {:induction false} RunSucceeds(acts: seq<Action>)
    requires AllWellTyped(acts)
    ensures Run(acts).Ok? <==> NoThrow(acts)
    decreases |acts|
  {
    if |acts| > 0 {
      var init := acts[..|acts| - 1];
      AllWellTypedPrefix(acts, |acts| - 1);
      RunSucceeds(init);
      assert forall i :: 0 <= i < |init| ==> init[i] == acts[i];
    }
  }

  /** A loop that throws reports the first throwing action; every action before it assigns. */
  lemma {:induction false} RunReportsFirst(acts: seq<Action>)
    requires AllWellTyped(acts)
    requires Run(acts).Err?
    ensures exists i :: 0 <= i < |acts| && acts[i] == Throw(Run(acts).error) && NoThrow(acts[..i])
    decreases |acts|
  {
    var n := |acts| - 1;
    var init := acts[..n];
    AllWellTypedPrefix(acts, n);
    if Run(init).Err? {
      RunReportsFirst(init);
      var i :| 0 <= i < |init| && init[i] == Throw(Run(init).error) && NoThrow(init[..i]);
      assert init[..i] == acts[..i];
    } else {
      RunSucceeds(init);
      assert acts[..n] == init;
    }
  }

  /** The action stores a value in field `s`. */
  predicate AimsAt(a: Action, s: Slot) {
    a.Assign? && a.slot == s
  }

  /** The position of the last action aimed at `s`, if any. */
  function LastAt(acts: seq<Action>, s: Slot): (r: Option<nat>)
    ensures r.Some? ==> r.value < |acts| && AimsAt(acts[r.value], s)
    ensures r.Some? ==> forall j :: r.value < j < |acts| ==> !AimsAt(acts[j], s)
    ensures r.None? ==> forall j :: 0 <= j < |acts| ==> !AimsAt(acts[j], s)
    decreases |acts|
  {
    if |acts| == 0 then None
    else if AimsAt(acts[|acts| - 1], s) then Some(|acts| - 1)
    else LastAt(acts[..|acts| - 1], s)
  }

  /**
   After a loop with no throw, a field holds the value of the last action
   aimed at it, or its initial value when no action is.
   */
  lemma {:induction false} RunLastWins(acts: seq<Action>, s: Slot)
    requires AllWellTyped(acts) && NoThrow(acts)
    ensures Run(acts).Ok?
    ensures LastAt(acts, s).None? ==> Get(Run(acts).value, s) == Get(Initial, s)
    ensures LastAt(acts, s).Some? ==> Get(Run(acts).value, s) == acts[LastAt(acts, s).value].value
    decreases |acts|
  {
    if |acts| > 0 {
      var n := |acts| - 1;
      var init := acts[..n];
      AllWellTypedPrefix(acts, n);
      assert forall i :: 0 <= i < n ==> init[i] == acts[i];
      RunLastWins(init, s);
      var c := Run(init).value;
      var d := Put(c, acts[n].slot, acts[n].value);
      assert Run(acts) == Ok(d);
      if acts[n].slot != s {
        OtherFieldsKept(c, d, acts[n].slot, s);
      }
    }
  }

  lemma OtherFieldsKept(c: Config, d: Config, changed: Slot, s: Slot)
    requires OnlyChanged(c, d, changed) && s != changed
    ensures Get(d, s) == Get(c, s)
  {
  }

  // The loop over the tokens

  /** No token is rejected. */
  predicate NoneRejected(args: seq<string>) {
    forall i :: 0 <= i < |args| ==> !Rejected(args[i])
  }

  /** The loop over the tokens completes exactly when no token is rejected. */
  lemma ParseArgsSucceeds(args: seq<string>)
    ensures ParseArgs(args).Ok? <==> NoneRejected(args)
  {
    RunSucceeds(Actions(args));
  }

  /** A failed parse reports the first rejected token. */
  lemma ParseArgsReportsFirst(args: seq<string>)
    requires ParseArgs(args).Err?
    ensures exists i :: 0 <= i < |args| && Rejected(args[i]) && ParseArgs(args).error.token == args[i]
                        && NoneRejected(args[..i])
  {
    var acts := Actions(args);
    RunReportsFirst(acts);
    var i :| 0 <= i < |acts| && acts[i] == Throw(Run(acts).error) && NoThrow(acts[..i]);
    ThrowsIffRejected(args, acts, i);
    forall j | 0 <= j < i
      ensures !Rejected(args[..i][j])
    {
      assert acts[..i][j] == acts[j];
      ThrowsIffRejected(args, acts, j);
    }
  }

  /** Token `i` throws exactly when it is rejected, and the exception names it. */
  lemma ThrowsIffRejected(args: seq<string>, acts: seq<Action>, i: nat)
    requires acts == Actions(args) && i < |args|
    ensures acts[i].Throw? <==> Rejected(args[i])
    ensures acts[i].Throw? ==> acts[i].error.token == args[i]
  {
    assert acts[i] == ActionOf(args[i]);
  }

  /**
   After a successful parse every field comes from the last token aimed at it
   (the last token of its flag, or the last other token for the directory), and
   keeps `main`'s initial value when there is none.
   */
  lemma ParseArgsLastWins(args: seq<string>, s: Slot)
    requires ParseArgs(args).Ok?
    ensures (forall i :: 0 <= i < |args| ==> Target(args[i]) != s) ==> Get(ParseArgs(args).value, s) == Get(Initial, s)
    ensures forall i :: 0 <= i < |args| && Target(args[i]) == s && (forall j :: i < j < |args| ==> Target(args[j]) != s) ==>
              ActionOf(args[i]) == Assign(s, Get(ParseArgs(args).value, s))
  {
    var acts := Actions(args);
    RunSucceeds(acts);
    RunLastWins(acts, s);
    var c := Run(acts).value;
    var last := LastAt(acts, s);
    if last.Some? {
      var k := last.value;
      AimedByTarget(args, acts, s, k);
      forall i | 0 <= i < |args| && Target(args[i]) == s && (forall j :: i < j < |args| ==> Target(args[j]) != s)
        ensures ActionOf(args[i]) == Assign(s, Get(c, s))
      {
        AimedByTarget(args, acts, s, i);
        assert i == k;
      }
    }
  }

  /** In a parse with no throw, the action of token `i` is aimed at `s` exactly when the token is. */
  lemma AimedByTarget(args: seq<string>, acts: seq<Action>, s: Slot, i: nat)
    requires acts == Actions(args) && NoThrow(acts) && i < |args|
    ensures AimsAt(acts[i], s) <==> Target(args[i]) == s
  {
    assert acts[i] == ActionOf(args[i]);
  }

  /** With no flag tokens at all, `main` keeps its initial port and the last token is the directory. */
  lemma {:induction false} NoFlagsKeepsDefaults(args: seq<string>)
    requires forall i :: 0 <= i < |args| ==> FlagOf(args[i]).None?
    ensures ParseArgs(args).Ok?
    ensures ParseArgs(args).value.port == 0
    ensures ParseArgs(args).value.dirPath == if |args| == 0 then None else Some(args[|args| - 1])
  {
    ParseArgsSucceeds(args);
    ParseArgsLastWins(args, FlagSlot(PortFlag));
    ParseArgsLastWins(args, DirPathSlot);
    if |args| > 0 {
      assert Target(args[|args| - 1]) == DirPathSlot;
    }
  }
}
