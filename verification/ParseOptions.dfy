/**
 The argument scan of idxd/util/parse-options.c: it reads the argument vector and, in the same array,
 compacts what it keeps. Whether an option accepts a value (a callback's verdict, or a number's
 syntax) is a parameter; what the options store is recorded as a list of settings.
 */
module ParseOptions {
  import opened Prelude
  import opened LongOptions

  datatype Flags = Flags(
    keepDashDash: bool, stopAtNonOption: bool, keepArgv0: bool, keepUnknown: bool, noInternalHelp: bool)

  /** Does option `index` accept this argument (none, or its default, when absent)? */
  type Accepts = (nat, Option<string>, bool) -> bool

  /** An option taking effect; `arg` is None when it takes none or uses its default. */
  datatype Setting = Setting(index: nat, unset: bool, arg: Option<string>)

  /** How a scan ends: at the end of the options, or early. `Died` is the source's internal error. */
  datatype Code = Finished | Help | Usage | UnknownOption | ListOpts | ListCmds | Typo | Died

  /** The vector is left half compacted and its caller ends the program. */
  predicate Early(c: Code) { !c.Finished? && !c.UnknownOption? }

  // ----- values of options

  /** What an option did: failed, hit the internal error, or took effect and left this much unread. */
  datatype Effect = Bad | Fatal | Took(setting: Setting, opt: Option<string>, later: seq<string>)

  /** The next argument: what is left of the current one, a default, or the following one. */
  function GetArg(o: Opt, index: nat, opt: Option<string>, later: seq<string>): Effect {
    if opt.Some? then Took(Setting(index, false, opt), None, later)
    else if o.lastargDefault && (later == [] || "-" <= later[0]) then Took(Setting(index, false, None), None, later)
    else if later != [] then Took(Setting(index, false, Some(later[0])), None, later[1..])
    else Bad
  }

  function Checked(e: Effect, accepts: Accepts): Effect {
    if e.Took? && !accepts(e.setting.index, e.setting.arg, e.setting.unset) then Bad else e
  }

  predicate TakesNothing(o: Opt) { o.kind in {BitOpt, Boolean, Incr, SetUint, SetPtr} }

  predicate Refuses(o: Opt, unset: bool, short: bool, opt: Option<string>) {
    || (unset && (opt.Some? || o.noneg))
    || (!short && opt.Some? && (TakesNothing(o) || (o.kind.Callback? && o.noarg)))
  }

  predicate NeedsArg(o: Opt, unset: bool, opt: Option<string>) {
    !TakesNothing(o) && !unset && !(o.kind.Callback? && o.noarg) && !(o.optarg && opt.None?)
  }

  /** Callbacks judge every use, numbers the argument they are given. */
  predicate Judges(o: Opt, given: bool) {
    o.kind.Callback? || (given && !o.kind.Str? && !o.kind.Filename?)
  }

  function GetValue(o: Opt, index: nat, unset: bool, short: bool, opt: Option<string>, later: seq<string>,
                    accepts: Accepts): Effect
  {
    if Refuses(o, unset, short, opt) then Bad
    else if o.kind.Argument? || o.kind.Group? then Fatal
    else
      var needs := NeedsArg(o, unset, opt);
      var e := if needs then GetArg(o, index, opt, later) else Took(Setting(index, unset, None), opt, later);
      if Judges(o, needs) then Checked(e, accepts) else e
  }

  /** A suffix of what was unread; nothing but the end is ever consumed. */
  ghost predicate Suffix(s: seq<string>, of: seq<string>) { |s| <= |of| && s == of[|of| - |s|..] }

  /** A value is taken from the rest of the current argument or from the next one, never from both. */
  lemma ValueConsumes(o: Opt, index: nat, unset: bool, short: bool, opt: Option<string>, later: seq<string>, acc: Accepts)
    ensures var e := GetValue(o, index, unset, short, opt, later, acc);
            e.Took? ==> (e.opt == opt || e.opt == None) && (e.later == later || (opt == None && later != [] && e.later == later[1..]))
  {
  }

  // ----- aggregated short switches

  /** The first option with this letter, or the length of the table. */
  function FindShort(table: seq<Opt>, c: char): (i: nat)
    ensures i <= |table| && forall k :: 0 <= k < i ==> table[k].shortName != Some(c)
    ensures i < |table| ==> table[i].shortName == Some(c)
  {
    if table == [] || table[0].shortName == Some(c) then 0 else 1 + FindShort(table[1..], c)
  }

  /** One switch letter, the first of `text`. */
  function ShortOne(table: seq<Opt>, text: string, later: seq<string>, accepts: Accepts): Option<Effect>
    requires text != ""
  {
    var i := FindShort(table, text[0]);
    if i == |table| then None
    else Some(GetValue(table[i], i, false, true, if |text| > 1 then Some(text[1..]) else None, later, accepts))
  }

  datatype Shorts =
    | AllTaken(later: seq<string>, settings: seq<Setting>)
    | UnknownAt(text: string, settings: seq<Setting>)
    | StopAt(code: Code, settings: seq<Setting>)

  function WithSettings(before: seq<Setting>, r: Shorts): Shorts {
    match r
    case AllTaken(l, ss) => AllTaken(l, before + ss)
    case UnknownAt(t, ss) => UnknownAt(t, before + ss)
    case StopAt(c, ss) => StopAt(c, before + ss)
  }

  /** The letters after the first, until one takes the rest as its value or none is left. */
  function MoreShorts(table: seq<Opt>, f: Flags, acc: Accepts, text: string, later: seq<string>): Shorts
    requires text != ""
    decreases |text|
  {
    if !f.noInternalHelp && text[0] == 'h' then StopAt(Help, [])
    else match ShortOne(table, text, later, acc)
      case None => UnknownAt(text, [])
      case Some(Bad) => StopAt(Usage, [])
      case Some(Fatal) => StopAt(Died, [])
      case Some(Took(s, opt, l)) =>
        ValueConsumes(table[FindShort(table, text[0])], FindShort(table, text[0]), false, true,
                      if |text| > 1 then Some(text[1..]) else None, later, acc);
        if opt.None? then AllTaken(l, [s])
        else WithSettings([s], MoreShorts(table, f, acc, opt.value, l))
  }

  lemma WithNone(r: Shorts)
    ensures WithSettings([], r) == r
  {
  }

  /** One turn of the loop over the letters. */
  lemma SwitchStep(table: seq<Opt>, f: Flags, acc: Accepts, before: seq<Setting>, text: string, later: seq<string>)
    requires text != ""
    ensures var r := WithSettings(before, MoreShorts(table, f, acc, text, later));
            if !f.noInternalHelp && text[0] == 'h' then r == StopAt(Help, before)
            else match ShortOne(table, text, later, acc)
              case None => r == UnknownAt(text, before)
              case Some(Bad) => r == StopAt(Usage, before)
              case Some(Fatal) => r == StopAt(Died, before)
              case Some(Took(s, opt, l)) =>
                if opt.None? then r == AllTaken(l, before + [s])
                else && l == later && opt.value != "" && |opt.value| < |text|
                     && r == WithSettings(before + [s], MoreShorts(table, f, acc, opt.value, l))
  {
    hide GetValue, FindShort;
    var i := FindShort(table, text[0]);
    if i < |table| {
      ValueConsumes(table[i], i, false, true, if |text| > 1 then Some(text[1..]) else None, later, acc);
      var e := GetValue(table[i], i, false, true, if |text| > 1 then Some(text[1..]) else None, later, acc);
      if e.Took? && e.opt.Some? {
        assert forall ss: seq<Setting> :: before + ([e.setting] + ss) == before + [e.setting] + ss;
      }
    }
  }

  /** A single dash before what looks like a long option is taken for a typing error. */
  predicate LooksLong(table: seq<Opt>, text: string) {
    |text| >= 3 && ("no-" <= text || exists i :: 0 <= i < |table| && table[i].longName.Some? && text <= table[i].longName.value)
  }

  method CheckTypos(table: seq<Opt>, text: string) returns (typo: bool)
    ensures typo == LooksLong(table, text)
  {
    if |text| < 3 { return false; }
    if "no-" <= text { return true; }
    for i := 0 to |table|
      invariant forall k :: 0 <= k < i ==> !(table[k].longName.Some? && text <= table[k].longName.value)
    {
      if table[i].longName.Some? && text <= table[i].longName.value { return true; }
    }
    typo := false;
  }

  function FirstShorts(table: seq<Opt>, f: Flags, acc: Accepts, text: string, later: seq<string>): Shorts
    requires text != ""
  {
    if !f.noInternalHelp && text[0] == 'h' then StopAt(Help, [])
    else match ShortOne(table, text, later, acc)
      case None => UnknownAt(text, [])
      case Some(Bad) => StopAt(Usage, [])
      case Some(Fatal) => StopAt(Died, [])
      case Some(Took(s, opt, l)) =>
        ValueConsumes(table[FindShort(table, text[0])], FindShort(table, text[0]), false, true,
                      if |text| > 1 then Some(text[1..]) else None, later, acc);
        if opt.None? then AllTaken(l, [s])
        else if LooksLong(table, text) then StopAt(Typo, [s])
        else WithSettings([s], MoreShorts(table, f, acc, opt.value, l))
  }

  /** `x` is what `text` ends with. */
  predicate EndOf(x: string, text: string) { |x| <= |text| && x == text[|text| - |x|..] }

  lemma EndOfRest(x: string, text: string)
    ensures EndOf(text, text)
    ensures text != "" && EndOf(x, text[1..]) ==> EndOf(x, text)
  {
  }

  /** Switches consume at most the one argument after their own; an unknown switch has consumed none. */
  lemma {:induction false} MoreShortsConsume(table: seq<Opt>, f: Flags, acc: Accepts, text: string, later: seq<string>)
    requires text != ""
    ensures var r := MoreShorts(table, f, acc, text, later);
            && (r.AllTaken? ==> r.later == later || (later != [] && r.later == later[1..]))
            && (r.UnknownAt? ==> r.text != "" && EndOf(r.text, text))
    decreases |text|
  {
    hide GetValue, FindShort, EndOf;
    EndOfRest(text, text);
    var i := FindShort(table, text[0]);
    if i < |table| {
      var rest := if |text| > 1 then Some(text[1..]) else None;
      ValueConsumes(table[i], i, false, true, rest, later, acc);
      var e := GetValue(table[i], i, false, true, rest, later, acc);
      if e.Took? && e.opt.Some? {
        MoreShortsConsume(table, f, acc, e.opt.value, e.later);
        var r := MoreShorts(table, f, acc, e.opt.value, e.later);
        if r.UnknownAt? { EndOfRest(r.text, text); }
      }
    }
  }

  /** The first letter differs only in that a typing error may be suspected after it. */
  lemma FirstIsMore(table: seq<Opt>, f: Flags, acc: Accepts, text: string, later: seq<string>)
    requires text != ""
    ensures var first, more := FirstShorts(table, f, acc, text, later), MoreShorts(table, f, acc, text, later);
            || first == more
            || (&& first == StopAt(Typo, first.settings) && first.settings <= more.settings
                && (more.AllTaken? ==> |first.settings| < |more.settings|))
  {
    hide GetValue, FindShort, LooksLong;
    var i := FindShort(table, text[0]);
    if i < |table| {
      var rest := if |text| > 1 then Some(text[1..]) else None;
      ValueConsumes(table[i], i, false, true, rest, later, acc);
      var e := GetValue(table[i], i, false, true, rest, later, acc);
      if e.Took? && e.opt.Some? { MoreShortsTake(table, f, acc, e.opt.value, e.later); }
    }
  }

  lemma FirstShortsConsume(table: seq<Opt>, f: Flags, acc: Accepts, text: string, later: seq<string>)
    requires text != ""
    ensures var r := FirstShorts(table, f, acc, text, later);
            && (r.AllTaken? ==> r.later == later || (later != [] && r.later == later[1..]))
            && (r.UnknownAt? ==> r.text != "" && EndOf(r.text, text))
  {
    hide FirstShorts, MoreShorts;
    FirstIsMore(table, f, acc, text, later);
    MoreShortsConsume(table, f, acc, text, later);
  }

  /** How a group of switches ended. */
  datatype GroupEnd = TookAll | HitUnknown | Stopped(code: Code)

  // ----- the scan, on values

  /** One argument: carry on with `later` and a value left over, halt with `rest` unread, or give up. */
  datatype OneArg =
    | Next(kept: Option<string>, later: seq<string>, settings: seq<Setting>, left: Option<string>)
    | Halt(code: Code, rest: seq<string>, settings: seq<Setting>)
    | Abort(code: Code, settings: seq<Setting>)

  function AnUnknown(f: Flags, arg: string, later: seq<string>, settings: seq<Setting>): OneArg {
    if f.keepUnknown then Next(Some(arg), later, settings, None) else Halt(UnknownOption, [arg] + later, settings)
  }

  predicate IsOption(arg: string) { "-" <= arg && |arg| > 1 }

  function ParseShortArg(t: seq<Opt>, f: Flags, acc: Accepts, arg: string, later: seq<string>): OneArg
    requires IsOption(arg)
  {
    match FirstShorts(t, f, acc, arg[1..], later)
    case AllTaken(l, ss) => Next(None, l, ss, None)
    case UnknownAt(text, ss) => AnUnknown(f, "-" + text, later, ss)
    case StopAt(c, ss) => Abort(c, ss)
  }

  function ParseResolved(t: seq<Opt>, f: Flags, acc: Accepts, left: Option<string>, arg: string, later: seq<string>): OneArg
    requires |arg| > 2
  {
    match Resolve(t, arg[2..], left)
    case Unknown => AnUnknown(f, arg, later, [])
    case Ambiguous(_, _) => Abort(Usage, [])
    case TakesNoValue(_) => Abort(Usage, [])
    case KeepArgument(_, more) => Next(Some(arg), later, [], more)
    case Apply(i, unset, value) =>
      match GetValue(t[i], i, unset, false, value, later, acc)
      case Bad => Abort(Usage, [])
      case Fatal => Abort(Died, [])
      case Took(s, more, l) => Next(None, l, [s], more)
  }

  function ParseLongArg(t: seq<Opt>, f: Flags, acc: Accepts, left: Option<string>, arg: string, later: seq<string>): OneArg
    requires |arg| > 2
  {
    var text := arg[2..];
    if !f.noInternalHelp && (text == "help-all" || text == "help") then Abort(Help, [])
    else if text == "list-opts" then Abort(ListOpts, [])
    else if text == "list-cmds" then Abort(ListCmds, [])
    else ParseResolved(t, f, acc, left, arg, later)
  }

  function ParseOne(t: seq<Opt>, f: Flags, acc: Accepts, left: Option<string>, args: seq<string>): OneArg
    requires args != []
  {
    var arg, later := args[0], args[1..];
    if !IsOption(arg) then (if f.stopAtNonOption then Halt(Finished, args, []) else Next(Some(arg), later, [], left))
    else if arg[1] != '-' then ParseShortArg(t, f, acc, arg, later)
    else if arg == "--" then Halt(Finished, if f.keepDashDash then args else later, [])
    else ParseLongArg(t, f, acc, left, arg, later)
  }

  /** Every argument that does not end the scan is consumed, with at most the one after it. */
  lemma OneConsumes(t: seq<Opt>, f: Flags, acc: Accepts, left: Option<string>, args: seq<string>)
    requires args != []
    ensures var r := ParseOne(t, f, acc, left, args);
            r.Next? ==> r.later == args[1..] || (|args| > 1 && r.later == args[2..] && r.kept.None?)
  {
    hide FirstShorts, GetValue, Resolve;
    var arg, later := args[0], args[1..];
    if IsOption(arg) && arg[1] != '-' {
      FirstShortsConsume(t, f, acc, arg[1..], later);
    } else if IsOption(arg) && arg != "--" {
      match Resolve(t, arg[2..], left)
      case Apply(i, unset, value) =>
        ValueConsumes(t[i], i, unset, false, value, later, acc);
      case _ =>
    }
  }

  /** The whole scan: how it ends, what it keeps, what it leaves unread, and what it sets. */
  datatype Result = Result(code: Code, kept: seq<string>, rest: seq<string>, settings: seq<Setting>)

  function Prepend(kept: seq<string>, settings: seq<Setting>, r: Result): Result {
    r.(kept := kept + r.kept, settings := settings + r.settings)
  }

  function Listed(o: Option<string>): seq<string> { if o.Some? then [o.value] else [] }

  function ParseArgs(t: seq<Opt>, f: Flags, acc: Accepts, left: Option<string>, args: seq<string>): Result
    decreases |args|
  {
    if args == [] then Result(Finished, [], [], [])
    else
      OneConsumes(t, f, acc, left, args);
      match ParseOne(t, f, acc, left, args)
      case Next(kept, later, ss, more) => Prepend(Listed(kept), ss, ParseArgs(t, f, acc, more, later))
      case Halt(c, rest, ss) => Result(c, [], rest, ss)
      case Abort(c, ss) => Result(c, [], [], ss)
  }

  /** One turn of the loop over the arguments, after keeping `kept` and setting `done`. */
  lemma ScanStep(t: seq<Opt>, f: Flags, acc: Accepts, left: Option<string>, args: seq<string>, kept: seq<string>, done: seq<Setting>)
    requires args != []
    ensures var one, all := ParseOne(t, f, acc, left, args), Prepend(kept, done, ParseArgs(t, f, acc, left, args));
            if one.Next? then
              && |one.later| < |args|
              && all == Prepend(kept + Listed(one.kept), done + one.settings, ParseArgs(t, f, acc, one.left, one.later))
            else all == Result(one.code, kept, if one.Halt? then one.rest else [], done + one.settings)
  {
    hide ParseOne, Listed;
    OneConsumes(t, f, acc, left, args);
    var one := ParseOne(t, f, acc, left, args);
    if one.Next? {
      var r := ParseArgs(t, f, acc, one.left, one.later);
      assert kept + (Listed(one.kept) + r.kept) == kept + Listed(one.kept) + r.kept;
      assert done + (one.settings + r.settings) == done + one.settings + r.settings;
    }
  }

  lemma ScanEnd(t: seq<Opt>, f: Flags, acc: Accepts, left: Option<string>, kept: seq<string>, done: seq<Setting>)
    ensures Prepend(kept, done, ParseArgs(t, f, acc, left, [])) == Result(Finished, kept, [], done)
  {
  }

  // ----- what becomes of every argument

  /** A kept argument: itself, or, for a group of switches cut short by an unknown one, a dash and the rest. */
  predicate KeptAs(arg: string, kept: string) {
    kept == arg || (IsOption(arg) && kept != "" && |kept| <= |arg| && kept == "-" + arg[|arg| - (|kept| - 1)..])
  }

  lemma OneKeeps(t: seq<Opt>, f: Flags, acc: Accepts, left: Option<string>, args: seq<string>)
    requires args != []
    ensures var r := ParseOne(t, f, acc, left, args);
            && (r.Next? && r.kept.Some? ==> KeptAs(args[0], r.kept.value))
            && (r.Halt? && r.code.Finished? ==> r.rest == args || (args[0] == "--" && r.rest == args[1..]))
            && (r.Halt? && !r.code.Finished? ==>
                  r.code.UnknownOption? && r.rest != [] && r.rest[1..] == args[1..] && KeptAs(args[0], r.rest[0]))
  {
    hide FirstShorts, GetValue, Resolve;
    var arg, later := args[0], args[1..];
    if IsOption(arg) && arg[1] != '-' { FirstShortsConsume(t, f, acc, arg[1..], later); }
  }

  /** Whatever of the following argument is gone is the last setting's value. */
  predicate LastTakes(ss: seq<Setting>, later: seq<string>, rest: seq<string>) {
    ss != [] && (|rest| < |later| ==> ss[|ss| - 1].arg == Some(later[0]))
  }

  lemma {:induction false} MoreShortsTake(t: seq<Opt>, f: Flags, acc: Accepts, text: string, later: seq<string>)
    requires text != ""
    ensures var r := MoreShorts(t, f, acc, text, later); r.AllTaken? ==> LastTakes(r.settings, later, r.later)
    decreases |text|
  {
    hide GetValue, FindShort;
    var i := FindShort(t, text[0]);
    if i < |t| {
      var rest := if |text| > 1 then Some(text[1..]) else None;
      ValueConsumes(t[i], i, false, true, rest, later, acc);
      ValueTakes(t[i], i, false, true, rest, later, acc);
      var e := GetValue(t[i], i, false, true, rest, later, acc);
      if e.Took? && e.opt.Some? { MoreShortsTake(t, f, acc, e.opt.value, e.later); }
    }
  }

  lemma ValueTakes(o: Opt, index: nat, unset: bool, short: bool, opt: Option<string>, later: seq<string>, acc: Accepts)
    ensures var e := GetValue(o, index, unset, short, opt, later, acc);
            e.Took? && |e.later| < |later| ==> e.setting.arg == Some(later[0])
  {
  }

  /** An argument that is not kept has set something; one that consumed the next has set its last option to it. */
  lemma OneTakes(t: seq<Opt>, f: Flags, acc: Accepts, left: Option<string>, args: seq<string>)
    requires args != []
    ensures var r := ParseOne(t, f, acc, left, args);
            && (r.settings != [] ==> IsOption(args[0]))
            && (r.Next? && (r.kept.None? || |r.later| < |args| - 1) ==> LastTakes(r.settings, args[1..], r.later))
  {
    hide FirstShorts, MoreShorts, GetValue, Resolve, LastTakes;
    var arg, later := args[0], args[1..];
    if IsOption(arg) && arg[1] != '-' {
      FirstIsMore(t, f, acc, arg[1..], later);
      MoreShortsTake(t, f, acc, arg[1..], later);
      FirstShortsConsume(t, f, acc, arg[1..], later);
    } else if IsOption(arg) && arg != "--" {
      match Resolve(t, arg[2..], left)
      case Apply(i, unset, value) =>
        ValueTakes(t[i], i, unset, false, value, later, acc);
        var e := GetValue(t[i], i, unset, false, value, later, acc);
        if e.Took? { OneTook(e.setting, later, e.later); }
      case _ =>
    }
  }

  lemma OneTook(s: Setting, later: seq<string>, rest: seq<string>)
    requires |rest| < |later| ==> s.arg == Some(later[0])
    ensures LastTakes([s], later, rest)
  {
  }

  /**
   Where a setting comes from: the argument at position `at`, the switch at `letter` of it (0 for a long option),
   with the next argument as its value or not.
   */
  datatype Origin = Origin(at: nat, letter: nat, next: bool)

  /** Kept arguments come from increasing positions. */
  ghost predicate KeptFrom(args: seq<string>, kept: seq<string>, where: seq<nat>) {
    && |where| == |kept|
    && (forall j, k :: 0 <= j < k < |where| ==> where[j] < where[k])
    && forall k :: 0 <= k < |where| ==> where[k] < |args| && KeptAs(args[where[k]], kept[k])
  }

  /** Letter `j` of a group of switches: it sets the first option of that name, and any value is what follows it. */
  predicate SwitchSets(t: seq<Opt>, arg: string, j: nat, s: Setting, next: bool) {
    && 1 <= j < |arg| && FindShort(t, arg[j]) == s.index < |t| && !s.unset
    && if next then j == |arg| - 1 else s.arg == None || s.arg == Some(arg[j + 1..])
  }

  /** A long option sets, or unsets, what it resolves to, given what it was left, to the value it resolves with. */
  ghost predicate LongSets(t: seq<Opt>, arg: string, s: Setting, next: bool) {
    |arg| > 2 && exists left :: Resolve(t, arg[2..], left) == Apply(s.index, s.unset, if next then None else s.arg)
  }

  ghost predicate Stands(t: seq<Opt>, args: seq<string>, s: Setting, o: Origin) {
    && o.at < |args| && IsOption(args[o.at])
    && (o.next ==> o.at + 1 < |args| && s.arg == Some(args[o.at + 1]))
    && if args[o.at][1] != '-' then SwitchSets(t, args[o.at], o.letter, s, o.next)
       else o.letter == 0 && LongSets(t, args[o.at], s, o.next)
  }

  predicate Before(o: Origin, p: Origin) {
    if o.next then o.at + 1 < p.at else o.at < p.at || (o.at == p.at && o.letter < p.letter)
  }

  /** Settings come from options in order, and no argument is the value of two. */
  ghost predicate SetFrom(t: seq<Opt>, args: seq<string>, ss: seq<Setting>, src: seq<Origin>) {
    && |src| == |ss|
    && (forall k :: 0 <= k < |src| ==> Stands(t, args, ss[k], src[k]))
    && forall j, k :: 0 <= j < k < |src| ==> Before(src[j], src[k])
  }

  predicate Covers(o: Origin, i: nat) { o.at == i || (o.next && o.at + 1 == i) }

  /** Argument `i` was kept, or is an option that set something, or is the value something was set to. */
  ghost predicate Explained(where: seq<nat>, src: seq<Origin>, i: nat) {
    i in where || exists k :: 0 <= k < |src| && Covers(src[k], i)
  }

  /** So are all of the first `n` arguments, but for the `--` that ends the options. */
  ghost predicate Accounted(args: seq<string>, where: seq<nat>, src: seq<Origin>, n: nat)
    requires n <= |args|
  {
    forall i :: 0 <= i < n ==> Explained(where, src, i) || (i == n - 1 && args[i] == "--")
  }

  /** No kept argument is also a value. */
  ghost predicate Apart(where: seq<nat>, src: seq<Origin>) {
    forall j, k :: 0 <= j < |where| && 0 <= k < |src| && src[k].next ==> where[j] != src[k].at + 1
  }

  /** Where everything kept and everything set came from. */
  ghost predicate Traced(t: seq<Opt>, args: seq<string>, r: Result, where: seq<nat>, src: seq<Origin>) {
    && KeptFrom(args, r.kept, where) && SetFrom(t, args, r.settings, src) && Apart(where, src)
    && (r.code.Finished? ==> |r.rest| <= |args| && Accounted(args, where, src, |args| - |r.rest|))
  }

  function Shifted(first: bool, more: seq<nat>, skip: nat): (where: seq<nat>)
    ensures |where| == |more| + if first then 1 else 0
    ensures first ==> where[0] == 0
    ensures forall k :: |where| - |more| <= k < |where| ==> where[k] == more[k - (|where| - |more|)] + skip
  {
    (if first then [0] else []) + seq(|more|, k requires 0 <= k < |more| => more[k] + skip)
  }

  /** `n` settings of the first argument, from `letter` on, the last with the next one as its value or not, then the rest. */
  function Sources(n: nat, letter: nat, next: bool, more: seq<Origin>, skip: nat): (src: seq<Origin>)
    ensures |src| == n + |more|
    ensures forall k :: 0 <= k < n ==> src[k] == Origin(0, letter + k, next && k == n - 1)
    ensures forall k :: n <= k < |src| ==> src[k] == more[k - n].(at := more[k - n].at + skip)
  {
    seq(n, (k: nat) => Origin(0, letter + k, next && k == n - 1))
    + seq(|more|, k requires 0 <= k < |more| => more[k].(at := more[k].at + skip))
  }

  // What one argument sets.

  /** The first letter of a group of switches; a long option has none. */
  function FirstLetter(arg: string): nat { if |arg| > 1 && arg[1] != '-' then 1 else 0 }

  /** The settings of a group, letter by letter from the start of `text`; `taken` says the last took the next argument. */
  ghost predicate LettersSet(t: seq<Opt>, text: string, ss: seq<Setting>, taken: bool) {
    |ss| <= |text| && forall k :: 0 <= k < |ss| ==> LetterSets(t, text, k, ss[k], taken && k == |ss| - 1)
  }

  predicate LetterSets(t: seq<Opt>, text: string, k: nat, s: Setting, next: bool)
    requires k < |text|
  {
    && FindShort(t, text[k]) == s.index < |t| && !s.unset
    && if next then k == |text| - 1 else s.arg == None || s.arg == Some(text[k + 1..])
  }

  /** One letter: where its value comes from. */
  lemma OneLetter(o: Opt, index: nat, opt: Option<string>, later: seq<string>, acc: Accepts)
    ensures var e := GetValue(o, index, false, true, opt, later, acc);
            e.Took? ==>
              && e.setting.index == index && !e.setting.unset
              && (if |e.later| < |later| then opt == None else e.setting.arg == None || e.setting.arg == opt)
              && (e.opt.Some? ==> e.opt == opt && e.later == later)
  {
  }

  lemma {:induction false} MoreShortsSet(t: seq<Opt>, f: Flags, acc: Accepts, text: string, later: seq<string>)
    requires text != ""
    ensures var r := MoreShorts(t, f, acc, text, later);
            && LettersSet(t, text, r.settings, r.AllTaken? && |r.later| < |later|)
            && (r.UnknownAt? ==> r.text == text[|r.settings|..])
    decreases |text|
  {
    hide GetValue, FindShort, LetterSets;
    var i := FindShort(t, text[0]);
    if i < |t| {
      var rest := if |text| > 1 then Some(text[1..]) else None;
      OneLetter(t[i], i, rest, later, acc);
      var e := GetValue(t[i], i, false, true, rest, later, acc);
      if e.Took? {
        if e.opt.Some? {
          MoreShortsSet(t, f, acc, e.opt.value, e.later);
          var r := MoreShorts(t, f, acc, e.opt.value, e.later);
          NextLetters(t, text, e.setting, r.settings, r.AllTaken? && |r.later| < |e.later|);
        } else {
          OnlyLetter(t, text, e.setting, |e.later| < |later|);
        }
      }
    }
  }

  lemma OnlyLetter(t: seq<Opt>, text: string, s: Setting, taken: bool)
    requires text != "" && FindShort(t, text[0]) == s.index < |t| && !s.unset
    requires if taken then |text| == 1 else s.arg == None || (|text| > 1 && s.arg == Some(text[1..]))
    ensures LettersSet(t, text, [s], taken)
  {
    hide FindShort;
  }

  lemma NextLetters(t: seq<Opt>, text: string, s: Setting, ss: seq<Setting>, taken: bool)
    requires |text| > 1 && FindShort(t, text[0]) == s.index < |t| && !s.unset && (s.arg == None || s.arg == Some(text[1..]))
    requires LettersSet(t, text[1..], ss, taken) && (taken ==> ss != [])
    ensures LettersSet(t, text, [s] + ss, taken)
  {
    hide FindShort;
    forall k | 0 <= k < |ss| + 1 ensures LetterSets(t, text, k, ([s] + ss)[k], taken && k == |ss|) {
      if k > 0 {
        assert LetterSets(t, text[1..], k - 1, ss[k - 1], taken && k - 1 == |ss| - 1);
        assert text[1..][k - 1 + 1..] == text[k + 1..];
      }
    }
  }

  lemma LettersOfArgument(t: seq<Opt>, args: seq<string>, ss: seq<Setting>, taken: bool)
    requires args != [] && IsOption(args[0]) && args[0][1] != '-' && LettersSet(t, args[0][1..], ss, taken)
    requires taken ==> |args| > 1 && ss != [] && ss[|ss| - 1].arg == Some(args[1])
    ensures SetHere(t, args, ss, 1, taken)
  {
    hide FindShort;
    var arg := args[0];
    forall k | 0 <= k < |ss| ensures Stands(t, args, ss[k], Origin(0, 1 + k, taken && k == |ss| - 1)) {
      assert LetterSets(t, arg[1..], k, ss[k], taken && k == |ss| - 1);
      assert arg[1..][k] == arg[k + 1] && arg[1..][k + 1..] == arg[k + 2..];
    }
  }

  lemma LongValue(o: Opt, index: nat, unset: bool, value: Option<string>, later: seq<string>, acc: Accepts)
    ensures var e := GetValue(o, index, unset, false, value, later, acc);
            e.Took? ==>
              && e.setting.index == index && e.setting.unset == unset
              && if |e.later| < |later| then value == None && e.setting.arg == Some(later[0]) else e.setting.arg == value
  {
  }

  /** What an argument sets is what its letters name, or what it resolves to. */
  lemma OneSets(t: seq<Opt>, f: Flags, acc: Accepts, left: Option<string>, args: seq<string>)
    requires args != []
    ensures var r := ParseOne(t, f, acc, left, args);
            SetHere(t, args, r.settings, FirstLetter(args[0]), r.Next? && |r.later| < |args| - 1)
  {
    hide FirstShorts, MoreShorts, GetValue, Resolve, LettersSet, SetHere;
    var arg, later := args[0], args[1..];
    NothingHere(t, args, FirstLetter(arg));
    if IsOption(arg) && arg[1] != '-' {
      SwitchesSet(t, f, acc, left, args);
    } else if IsOption(arg) && arg != "--" {
      match Resolve(t, arg[2..], left)
      case Apply(i, unset, value) =>
        LongValue(t[i], i, unset, value, later, acc);
        var e := GetValue(t[i], i, unset, false, value, later, acc);
        if e.Took? { LongHere(t, args, e.setting, left, |e.later| < |later|); }
      case _ =>
    }
  }

  lemma NothingHere(t: seq<Opt>, args: seq<string>, letter: nat)
    ensures SetHere(t, args, [], letter, false)
  {
  }

  lemma LongHere(t: seq<Opt>, args: seq<string>, s: Setting, left: Option<string>, next: bool)
    requires args != [] && IsOption(args[0]) && args[0][1] == '-' && |args[0]| > 2
    requires Resolve(t, args[0][2..], left) == Apply(s.index, s.unset, if next then None else s.arg)
    requires next ==> |args| > 1 && s.arg == Some(args[1])
    ensures SetHere(t, args, [s], 0, next)
  {
    hide Resolve;
    assert LongSets(t, args[0], s, next);
  }

  lemma SwitchesSet(t: seq<Opt>, f: Flags, acc: Accepts, left: Option<string>, args: seq<string>)
    requires args != [] && IsOption(args[0]) && args[0][1] != '-'
    ensures var r := ParseOne(t, f, acc, left, args);
            SetHere(t, args, r.settings, 1, r.Next? && |r.later| < |args| - 1)
  {
    hide FirstShorts, MoreShorts, LettersSet, SetHere;
    var text, later := args[0][1..], args[1..];
    FirstIsMore(t, f, acc, text, later);
    MoreShortsSet(t, f, acc, text, later);
    MoreShortsTake(t, f, acc, text, later);
    FirstShortsConsume(t, f, acc, text, later);
    var r, m := FirstShorts(t, f, acc, text, later), MoreShorts(t, f, acc, text, later);
    if r == m {
      LettersOfArgument(t, args, m.settings, m.AllTaken? && |m.later| < |later|);
    } else {
      FewerLetters(t, text, m.settings, r.settings, m.AllTaken? && |m.later| < |later|);
      LettersOfArgument(t, args, r.settings, false);
    }
  }

  lemma FewerLetters(t: seq<Opt>, text: string, ss: seq<Setting>, fewer: seq<Setting>, taken: bool)
    requires LettersSet(t, text, ss, taken) && fewer <= ss && (taken ==> |fewer| < |ss|)
    ensures LettersSet(t, text, fewer, false)
  {
    hide FindShort;
    forall k | 0 <= k < |fewer| ensures LetterSets(t, text, k, fewer[k], false) {
      assert LetterSets(t, text, k, ss[k], taken && k == |ss| - 1);
    }
  }

  lemma OneMoreKept(args: seq<string>, first: Option<string>, later: seq<string>, kept: seq<string>, more: seq<nat>)
    requires args != [] && Suffix(later, args[1..]) && KeptFrom(later, kept, more)
    requires first.Some? ==> KeptAs(args[0], first.value)
    ensures KeptFrom(args, Listed(first) + kept, Shifted(first.Some?, more, |args| - |later|))
  {
    hide KeptAs, Shifted;
    var where := Shifted(first.Some?, more, |args| - |later|);
    var at := |where| - |more|;
    forall k | at <= k < |where| ensures where[k] < |args| && KeptAs(args[where[k]], kept[k - at]) {
      assert args[where[k]] == later[more[k - at]];
    }
  }

  /** The settings of one argument, each from its letter. */
  ghost predicate SetHere(t: seq<Opt>, args: seq<string>, ss: seq<Setting>, letter: nat, next: bool) {
    forall k :: 0 <= k < |ss| ==> Stands(t, args, ss[k], Origin(0, letter + k, next && k == |ss| - 1))
  }

  lemma StandsLater(t: seq<Opt>, args: seq<string>, later: seq<string>, s: Setting, o: Origin)
    requires Suffix(later, args) && Stands(t, later, s, o)
    ensures Stands(t, args, s, o.(at := o.at + |args| - |later|))
  {
    hide IsOption, SwitchSets, LongSets;
    var skip := |args| - |later|;
    assert args[o.at + skip] == later[o.at] && (o.next ==> args[o.at + 1 + skip] == later[o.at + 1]);
  }

  lemma OneMoreSet(t: seq<Opt>, args: seq<string>, ss: seq<Setting>, letter: nat, later: seq<string>,
                   rest: seq<Setting>, more: seq<Origin>)
    requires args != [] && Suffix(later, args[1..]) && |later| >= |args| - 2 && SetFrom(t, later, rest, more)
    requires SetHere(t, args, ss, letter, |later| < |args| - 1)
    ensures SetFrom(t, args, ss + rest, Sources(|ss|, letter, |later| < |args| - 1, more, |args| - |later|))
  {
    hide Stands, Sources;
    var skip := |args| - |later|;
    var src := Sources(|ss|, letter, |later| < |args| - 1, more, skip);
    forall k | |ss| <= k < |src| ensures Stands(t, args, (ss + rest)[k], src[k]) {
      StandsLater(t, args, later, rest[k - |ss|], more[k - |ss|]);
    }
    forall j, k | 0 <= j < k < |src| ensures Before(src[j], src[k]) {
      if j >= |ss| { assert Before(more[j - |ss|], more[k - |ss|]); }
    }
  }

  lemma OneMoreApart(first: bool, n: nat, letter: nat, next: bool, skip: nat, more: seq<nat>, rest: seq<Origin>)
    requires Apart(more, rest) && skip == (if next then 2 else 1) && (first ==> !next)
    ensures Apart(Shifted(first, more, skip), Sources(n, letter, next, rest, skip))
  {
    hide Shifted, Sources;
    var where, src := Shifted(first, more, skip), Sources(n, letter, next, rest, skip);
    var at := |where| - |more|;
    forall j, k | 0 <= j < |where| && 0 <= k < |src| && src[k].next ensures where[j] != src[k].at + 1 {
      if j >= at && k >= n { assert more[j - at] != rest[k - n].at + 1; }
    }
  }

  lemma FirstExplained(first: bool, n: nat, letter: nat, next: bool, skip: nat, more: seq<nat>, rest: seq<Origin>, i: nat)
    requires (first && skip == 1) || n > 0
    requires skip == (if next then 2 else 1) && i < skip
    ensures Explained(Shifted(first, more, skip), Sources(n, letter, next, rest, skip), i)
  {
    hide Shifted, Sources;
    var where, src := Shifted(first, more, skip), Sources(n, letter, next, rest, skip);
    if n > 0 { assert Covers(src[n - 1], i); } else { assert where[0] == i; }
  }

  lemma LaterExplained(first: bool, n: nat, letter: nat, next: bool, skip: nat, more: seq<nat>, rest: seq<Origin>, i: nat)
    requires Explained(more, rest, i)
    ensures Explained(Shifted(first, more, skip), Sources(n, letter, next, rest, skip), i + skip)
  {
    hide Shifted, Sources;
    var where, src := Shifted(first, more, skip), Sources(n, letter, next, rest, skip);
    if i in more {
      var k :| 0 <= k < |more| && more[k] == i;
      assert where[|where| - |more| + k] == i + skip;
    } else {
      var k :| 0 <= k < |rest| && Covers(rest[k], i);
      assert Covers(src[n + k], i + skip);
    }
  }

  lemma OneMoreAccounted(args: seq<string>, first: bool, n: nat, letter: nat, later: seq<string>,
                         more: seq<nat>, rest: seq<Origin>, m: nat)
    requires args != [] && Suffix(later, args[1..]) && |later| >= |args| - 2
    requires (first && |later| == |args| - 1) || n > 0
    requires m <= |later| && Accounted(later, more, rest, m)
    ensures var skip := |args| - |later|;
            Accounted(args, Shifted(first, more, skip), Sources(n, letter, skip == 2, rest, skip), m + skip)
  {
    hide Shifted, Sources, Explained;
    var skip := |args| - |later|;
    var where, src := Shifted(first, more, skip), Sources(n, letter, skip == 2, rest, skip);
    forall i | 0 <= i < m + skip
      ensures Explained(where, src, i) || (i == m + skip - 1 && args[i] == "--")
    {
      if i < skip {
        FirstExplained(first, n, letter, skip == 2, skip, more, rest, i);
      } else {
        assert args[i] == later[i - skip];
        if Explained(more, rest, i - skip) { LaterExplained(first, n, letter, skip == 2, skip, more, rest, i - skip); }
      }
    }
    assert Accounted(args, where, src, m + skip);
  }

  lemma NothingAccounted(args: seq<string>, src: seq<Origin>)
    ensures Accounted(args, [], src, 0)
    ensures args != [] && args[0] == "--" ==> Accounted(args, [], src, 1)
  {
  }

  lemma NothingFrom(t: seq<Opt>, args: seq<string>)
    ensures KeptFrom(args, [], []) && SetFrom(t, args, [], [])
  {
  }

  lemma LastSet(t: seq<Opt>, args: seq<string>, ss: seq<Setting>, letter: nat)
    requires SetHere(t, args, ss, letter, false)
    ensures SetFrom(t, args, ss, Sources(|ss|, letter, false, [], 0))
  {
    hide Stands;
  }

  /**
   What becomes of every argument, in order. Kept arguments come from increasing positions; every setting
   comes from an option, and one that took the next argument has it as its value; no argument is taken
   twice. When the options end normally, every argument before the unread ones was kept, or set something,
   or is such a value, or is the `--` that ended the options: none is lost.
   */
  lemma {:induction false} NothingLost(t: seq<Opt>, f: Flags, acc: Accepts, left: Option<string>, args: seq<string>)
    returns (where: seq<nat>, src: seq<Origin>)
    ensures Traced(t, args, ParseArgs(t, f, acc, left, args), where, src)
    decreases |args|
  {
    hide ParseOne, ParseArgs, KeptFrom, SetFrom, Apart, Accounted;
    if args == [] {
      where, src := [], [];
      NothingFrom(t, args);
      NothingAccounted(args, []);
      NothingApart([]);
      ScanEnd(t, f, acc, left, [], []);
    } else {
      ArgsStep(t, f, acc, left, args);
      if ParseOne(t, f, acc, left, args).Next? {
        var one := ParseOne(t, f, acc, left, args);
        OneShrinks(t, f, acc, left, args);
        var more, rest := NothingLost(t, f, acc, one.left, one.later);
        where, src := NextLost(t, f, acc, left, args, more, rest);
      } else {
        where, src := LastLost(t, f, acc, left, args);
      }
    }
  }

  lemma ArgsStep(t: seq<Opt>, f: Flags, acc: Accepts, left: Option<string>, args: seq<string>)
    requires args != []
    ensures var one := ParseOne(t, f, acc, left, args);
            ParseArgs(t, f, acc, left, args) ==
            if one.Next? then Prepend(Listed(one.kept), one.settings, ParseArgs(t, f, acc, one.left, one.later))
            else Result(one.code, [], if one.Halt? then one.rest else [], one.settings)
  {
    hide ParseOne, Listed;
  }

  lemma OneShrinks(t: seq<Opt>, f: Flags, acc: Accepts, left: Option<string>, args: seq<string>)
    requires args != []
    ensures var r := ParseOne(t, f, acc, left, args);
            r.Next? ==> Suffix(r.later, args[1..]) && |args| - 2 <= |r.later| < |args| && (r.kept.Some? ==> |r.later| == |args| - 1)
  {
    hide ParseOne;
    OneConsumes(t, f, acc, left, args);
  }

  lemma NextLost(t: seq<Opt>, f: Flags, acc: Accepts, left: Option<string>, args: seq<string>,
                 more: seq<nat>, rest: seq<Origin>)
    returns (where: seq<nat>, src: seq<Origin>)
    requires args != [] && ParseOne(t, f, acc, left, args).Next?
    requires var one := ParseOne(t, f, acc, left, args);
             Traced(t, one.later, ParseArgs(t, f, acc, one.left, one.later), more, rest)
    ensures Traced(t, args, ParseArgs(t, f, acc, left, args), where, src)
  {
    hide ParseOne, ParseArgs, KeptAs, KeptFrom, SetFrom, SetHere, Apart, Accounted, IsOption, LastTakes, Shifted, Sources, Suffix, Listed;
    var one := ParseOne(t, f, acc, left, args);
    var r := ParseArgs(t, f, acc, one.left, one.later);
    var n, skip := |one.settings|, |args| - |one.later|;
    ArgsStep(t, f, acc, left, args);
    OneShrinks(t, f, acc, left, args);
    OneKeeps(t, f, acc, left, args);
    OneTakes(t, f, acc, left, args);
    OneSets(t, f, acc, left, args);
    var letter := FirstLetter(args[0]);
    where, src := Shifted(one.kept.Some?, more, skip), Sources(n, letter, skip == 2, rest, skip);
    OneMoreKept(args, one.kept, one.later, r.kept, more);
    OneMoreSet(t, args, one.settings, letter, one.later, r.settings, rest);
    OneMoreApart(one.kept.Some?, n, letter, skip == 2, skip, more, rest);
    if r.code.Finished? {
      if n == 0 { NoLastTakes(args[1..], one.later); }
      OneMoreAccounted(args, one.kept.Some?, n, letter, one.later, more, rest, |one.later| - |r.rest|);
    }
  }

  lemma LastLost(t: seq<Opt>, f: Flags, acc: Accepts, left: Option<string>, args: seq<string>)
    returns (where: seq<nat>, src: seq<Origin>)
    requires args != [] && !ParseOne(t, f, acc, left, args).Next?
    ensures Traced(t, args, ParseArgs(t, f, acc, left, args), where, src)
  {
    hide ParseOne, ParseArgs, KeptAs, KeptFrom, SetFrom, SetHere, Apart, Accounted, IsOption, Sources;
    var one := ParseOne(t, f, acc, left, args);
    ArgsStep(t, f, acc, left, args);
    OneKeeps(t, f, acc, left, args);
    OneTakes(t, f, acc, left, args);
    AbortIsEarly(t, f, acc, left, args);
    OneSets(t, f, acc, left, args);
    where, src := [], Sources(|one.settings|, FirstLetter(args[0]), false, [], 0);
    NothingFrom(t, args);
    LastSet(t, args, one.settings, FirstLetter(args[0]));
    NothingAccounted(args, src);
    NothingApart(src);
  }

  lemma NothingApart(src: seq<Origin>)
    ensures Apart([], src)
  {
  }

  lemma NoLastTakes(later: seq<string>, rest: seq<string>)
    ensures !LastTakes([], later, rest)
  {
  }

  /** When the options end normally, what is left unread is a tail of the arguments, untouched. */
  lemma {:induction false} RestIsTail(t: seq<Opt>, f: Flags, acc: Accepts, left: Option<string>, args: seq<string>)
    ensures var r := ParseArgs(t, f, acc, left, args);
            r.code.Finished? ==> Suffix(r.rest, args) && |r.kept| + |r.rest| <= |args|
    decreases |args|
  {
    hide ParseOne;
    if args != [] {
      OneConsumes(t, f, acc, left, args);
      OneKeeps(t, f, acc, left, args);
      var one := ParseOne(t, f, acc, left, args);
      if one.Next? { RestIsTail(t, f, acc, one.left, one.later); }
      AbortIsEarly(t, f, acc, left, args);
    }
  }

  lemma {:induction false} ShortsStopEarly(t: seq<Opt>, f: Flags, acc: Accepts, text: string, later: seq<string>)
    requires text != ""
    ensures MoreShorts(t, f, acc, text, later).StopAt? ==> Early(MoreShorts(t, f, acc, text, later).code)
    decreases |text|
  {
    hide GetValue, FindShort;
    var i := FindShort(t, text[0]);
    if i < |t| {
      var rest := if |text| > 1 then Some(text[1..]) else None;
      ValueConsumes(t[i], i, false, true, rest, later, acc);
      var e := GetValue(t[i], i, false, true, rest, later, acc);
      if e.Took? && e.opt.Some? { ShortsStopEarly(t, f, acc, e.opt.value, e.later); }
    }
  }

  lemma AbortIsEarly(t: seq<Opt>, f: Flags, acc: Accepts, left: Option<string>, args: seq<string>)
    requires args != []
    ensures ParseOne(t, f, acc, left, args).Abort? ==> Early(ParseOne(t, f, acc, left, args).code)
  {
    hide FirstShorts, MoreShorts, GetValue, Resolve;
    var arg, later := args[0], args[1..];
    if IsOption(arg) && arg[1] != '-' {
      FirstIsMore(t, f, acc, arg[1..], later);
      ShortsStopEarly(t, f, acc, arg[1..], later);
    }
  }

  // ----- what is set

  predicate TakesArg(o: Opt) { !TakesNothing(o) && !(o.kind.Callback? && o.noarg) }

  /**
   What every setting respects: only real options are set, `no-` only where it is allowed and without a
   value, a value only where one is taken and only one that was accepted, and none missing unless optional.
   */
  predicate Sound(t: seq<Opt>, acc: Accepts, s: Setting) {
    && s.index < |t| && !t[s.index].kind.Argument? && !t[s.index].kind.Group?
    && (s.unset ==> !t[s.index].noneg && s.arg == None)
    && (s.arg.Some? ==> TakesArg(t[s.index]))
    && (Judges(t[s.index], s.arg.Some?) ==> acc(s.index, s.arg, s.unset))
    && (s.arg == None && !s.unset && TakesArg(t[s.index]) ==> t[s.index].optarg || t[s.index].lastargDefault)
  }

  ghost predicate AllSound(t: seq<Opt>, acc: Accepts, ss: seq<Setting>) {
    forall k :: 0 <= k < |ss| ==> Sound(t, acc, ss[k])
  }

  lemma ValueSound(t: seq<Opt>, index: nat, unset: bool, short: bool, opt: Option<string>, later: seq<string>, acc: Accepts)
    requires index < |t|
    ensures var e := GetValue(t[index], index, unset, short, opt, later, acc); e.Took? ==> Sound(t, acc, e.setting)
  {
  }

  lemma {:induction false} MoreShortsSound(t: seq<Opt>, f: Flags, acc: Accepts, text: string, later: seq<string>)
    requires text != ""
    ensures AllSound(t, acc, MoreShorts(t, f, acc, text, later).settings)
    decreases |text|
  {
    hide GetValue, FindShort, Sound;
    var i := FindShort(t, text[0]);
    if i < |t| {
      var rest := if |text| > 1 then Some(text[1..]) else None;
      ValueConsumes(t[i], i, false, true, rest, later, acc);
      ValueSound(t, i, false, true, rest, later, acc);
      var e := GetValue(t[i], i, false, true, rest, later, acc);
      if e.Took? && e.opt.Some? { MoreShortsSound(t, f, acc, e.opt.value, e.later); }
    }
  }

  lemma OneSound(t: seq<Opt>, f: Flags, acc: Accepts, left: Option<string>, args: seq<string>)
    requires args != []
    ensures AllSound(t, acc, ParseOne(t, f, acc, left, args).settings)
  {
    hide FirstShorts, MoreShorts, GetValue, Resolve, Sound;
    var arg, later := args[0], args[1..];
    if IsOption(arg) && arg[1] != '-' {
      FirstIsMore(t, f, acc, arg[1..], later);
      MoreShortsSound(t, f, acc, arg[1..], later);
    } else if IsOption(arg) && arg != "--" {
      match Resolve(t, arg[2..], left)
      case Apply(i, unset, value) => ValueSound(t, i, unset, false, value, later, acc);
      case _ =>
    }
  }

  /** Every setting of every scan is sound, however the scan ends. */
  lemma {:induction false} SettingsSound(t: seq<Opt>, f: Flags, acc: Accepts, left: Option<string>, args: seq<string>)
    ensures AllSound(t, acc, ParseArgs(t, f, acc, left, args).settings)
    decreases |args|
  {
    hide ParseOne, Sound;
    if args != [] {
      OneConsumes(t, f, acc, left, args);
      OneSound(t, f, acc, left, args);
      var one := ParseOne(t, f, acc, left, args);
      if one.Next? { SettingsSound(t, f, acc, one.left, one.later); }
    }
  }

  // ----- what an option does, case by case

  /** An option that can be applied at all. */
  predicate Usable(o: Opt) { !o.kind.Argument? && !o.kind.Group? }

  /** Unset: allowed, given no value, and not refused by its callback; nothing else matters. */
  lemma UnsetDecides(o: Opt, index: nat, short: bool, opt: Option<string>, later: seq<string>, acc: Accepts)
    requires Usable(o)
    ensures GetValue(o, index, true, short, opt, later, acc) ==
            if !o.noneg && opt == None && (o.kind.Callback? ==> acc(index, None, true))
            then Took(Setting(index, true, None), None, later) else Bad
  {
  }

  /** Set, and taking no argument: a value is refused for a long option, and left to the next letter for a switch. */
  lemma SwitchDecides(o: Opt, index: nat, short: bool, opt: Option<string>, later: seq<string>, acc: Accepts)
    requires Usable(o) && !TakesArg(o)
    ensures GetValue(o, index, false, short, opt, later, acc) ==
            if (short || opt == None) && (o.kind.Callback? ==> acc(index, None, false))
            then Took(Setting(index, false, None), opt, later) else Bad
  {
  }

  /**
   Set, and taking an argument: its own, if it has one; else none, if that is optional, or if its default may be used
   and no argument that is not an option follows; else the next argument, if there is one.
   */
  lemma ArgumentDecides(o: Opt, index: nat, short: bool, opt: Option<string>, later: seq<string>, acc: Accepts)
    requires Usable(o) && TakesArg(o)
    ensures var none := o.optarg || (o.lastargDefault && (later == [] || "-" <= later[0]));
            var arg := if opt.Some? then opt else if none || later == [] then None else Some(later[0]);
            var asked := o.kind.Callback? || (!o.kind.Str? && !o.kind.Filename? && !(o.optarg && opt == None));
            GetValue(o, index, false, short, opt, later, acc) ==
            if (opt == None && !none && later == []) || (asked && !acc(index, arg, false)) then Bad
            else Took(Setting(index, false, arg), None, if opt.Some? || none then later else later[1..])
  {
  }

  // ----- groups of switches

  /** This letter names a switch that takes no argument and is accepted, and is not taken for a call for help. */
  predicate IsSwitch(t: seq<Opt>, f: Flags, acc: Accepts, c: char) {
    var i := FindShort(t, c);
    && i < |t| && Usable(t[i]) && !TakesArg(t[i]) && (t[i].kind.Callback? ==> acc(i, None, false))
    && (f.noInternalHelp || c != 'h')
  }

  /** Setting each of them in turn. */
  function SetEach(t: seq<Opt>, text: string): (ss: seq<Setting>)
    ensures |ss| == |text| && forall k :: 0 <= k < |text| ==> ss[k] == Setting(FindShort(t, text[k]), false, None)
  {
    seq(|text|, k requires 0 <= k < |text| => Setting(FindShort(t, text[k]), false, None))
  }

  lemma GroupStep(t: seq<Opt>, f: Flags, acc: Accepts, text: string, later: seq<string>)
    requires text != "" && IsSwitch(t, f, acc, text[0])
    ensures var s := Setting(FindShort(t, text[0]), false, None);
            MoreShorts(t, f, acc, text, later) ==
            if |text| == 1 then AllTaken(later, [s]) else WithSettings([s], MoreShorts(t, f, acc, text[1..], later))
  {
    hide GetValue, FindShort, WithSettings;
    var i := FindShort(t, text[0]);
    SwitchDecides(t[i], i, true, if |text| > 1 then Some(text[1..]) else None, later, acc);
  }

  lemma SetEachMore(t: seq<Opt>, text: string)
    requires text != ""
    ensures SetEach(t, text) == [Setting(FindShort(t, text[0]), false, None)] + SetEach(t, text[1..])
  {
    hide FindShort;
  }

  lemma WithMore(s: Setting, ss: seq<Setting>, r: Shorts)
    ensures WithSettings([s], WithSettings(ss, r)) == WithSettings([s] + ss, r)
    ensures r.AllTaken? ==> WithSettings([s], r) == AllTaken(r.later, [s] + r.settings)
  {
    assert [s] + (ss + r.settings) == [s] + ss + r.settings;
  }

  /** A group sets its switches one after the other, and goes on with what follows them. */
  lemma {:induction false} GroupRuns(t: seq<Opt>, f: Flags, acc: Accepts, text: string, k: nat, later: seq<string>)
    requires 0 < k <= |text| && forall j :: 0 <= j < k ==> IsSwitch(t, f, acc, text[j])
    ensures MoreShorts(t, f, acc, text, later) ==
            if k == |text| then AllTaken(later, SetEach(t, text))
            else WithSettings(SetEach(t, text[..k]), MoreShorts(t, f, acc, text[k..], later))
    decreases k
  {
    hide IsSwitch, MoreShorts, WithSettings, SetEach, FindShort;
    var s := Setting(FindShort(t, text[0]), false, None);
    GroupStep(t, f, acc, text, later);
    SetEachMore(t, text);
    SetEachMore(t, text[..k]);
    assert text[..k][1..] == text[1..][..k - 1];
    if k == 1 {
      assert SetEach(t, text[..1]) == [s] by { assert |SetEach(t, text[..1])| == 1; }
    } else {
      GroupRuns(t, f, acc, text[1..], k - 1, later);
      var more := text[1..];
      assert more[k - 1..] == text[k..];
      if k < |text| {
        WithMore(s, SetEach(t, more[..k - 1]), MoreShorts(t, f, acc, text[k..], later));
      } else {
        WithMore(s, [], MoreShorts(t, f, acc, more, later));
      }
    }
  }

  /** A call for help among the switches is answered after those before it have taken effect. */
  lemma GroupHelps(t: seq<Opt>, f: Flags, acc: Accepts, text: string, k: nat, later: seq<string>)
    requires 0 < k < |text| && (forall j :: 0 <= j < k ==> IsSwitch(t, f, acc, text[j]))
    requires !f.noInternalHelp && text[k] == 'h'
    ensures MoreShorts(t, f, acc, text, later) == StopAt(Help, SetEach(t, text[..k]))
  {
    hide IsSwitch;
    GroupRuns(t, f, acc, text, k, later);
  }

  /** A group of two switches or more that could be a long option is taken for a typing error, after its first switch. */
  lemma TypoDecides(t: seq<Opt>, f: Flags, acc: Accepts, text: string, later: seq<string>)
    requires |text| > 1 && IsSwitch(t, f, acc, text[0])
    ensures FirstShorts(t, f, acc, text, later) ==
            if |text| >= 3 && ("no-" <= text || exists i :: 0 <= i < |t| && t[i].longName.Some? && text <= t[i].longName.value)
            then StopAt(Typo, SetEach(t, text[..1])) else MoreShorts(t, f, acc, text, later)
  {
    hide GetValue, FindShort;
    var i := FindShort(t, text[0]);
    SwitchDecides(t[i], i, true, Some(text[1..]), later, acc);
    assert SetEach(t, text[..1]) == [Setting(i, false, None)];
  }

  // ----- whole scans

  ghost predicate AllPlain(args: seq<string>) { forall i :: 0 <= i < |args| ==> !IsOption(args[i]) }

  /** Arguments that are not options are passed through, and the scan goes on behind them. */
  lemma {:induction false} SkipsPlain(t: seq<Opt>, f: Flags, acc: Accepts, left: Option<string>, pre: seq<string>, rest: seq<string>)
    requires !f.stopAtNonOption && AllPlain(pre)
    ensures ParseArgs(t, f, acc, left, pre + rest) == Prepend(pre, [], ParseArgs(t, f, acc, left, rest))
    decreases |pre|
  {
    hide IsOption, ParseShortArg, ParseLongArg;
    if pre == [] {
      assert pre + rest == rest;
    } else {
      assert (pre + rest)[1..] == pre[1..] + rest;
      ArgsStep(t, f, acc, left, pre + rest);
      SkipsPlain(t, f, acc, left, pre[1..], rest);
      assert [pre[0]] + (pre[1..] + ParseArgs(t, f, acc, left, rest).kept) == pre + ParseArgs(t, f, acc, left, rest).kept;
    }
  }

  /** `--` ends the options: what follows it is left alone, and it is dropped unless it is to be kept. */
  lemma DashDashEnds(t: seq<Opt>, f: Flags, acc: Accepts, pre: seq<string>, post: seq<string>)
    requires !f.stopAtNonOption && AllPlain(pre)
    ensures ParseArgs(t, f, acc, None, pre + (["--"] + post)) ==
            Result(Finished, pre, if f.keepDashDash then ["--"] + post else post, [])
  {
    SkipsPlain(t, f, acc, None, pre, ["--"] + post);
    assert (["--"] + post)[1..] == post;
    ArgsStep(t, f, acc, None, ["--"] + post);
  }

  /** Where the scan is to stop at the first argument that is not an option, it does. */
  lemma StopsAtPlain(t: seq<Opt>, f: Flags, acc: Accepts, left: Option<string>, args: seq<string>)
    requires f.stopAtNonOption && args != [] && !IsOption(args[0])
    ensures ParseArgs(t, f, acc, left, args) == Result(Finished, [], args, [])
  {
    ArgsStep(t, f, acc, left, args);
  }

  /** An option the table does not know, and the parser has no meaning for. */
  predicate IsUnknown(t: seq<Opt>, f: Flags, arg: string) {
    && IsOption(arg) && arg != "--" && EndsScan(f, arg) == None
    && if arg[1] == '-' then Resolve(t, arg[2..], None) == Unknown else FindShort(t, arg[1]) == |t|
  }

  /** The options the parser answers itself. */
  function EndsScan(f: Flags, arg: string): Option<Code> {
    if arg == "--list-opts" then Some(ListOpts)
    else if arg == "--list-cmds" then Some(ListCmds)
    else if !f.noInternalHelp && (arg == "--help" || arg == "--help-all" || "-h" <= arg) then Some(Help)
    else None
  }

  /** Such an option ends the scan with its own code, whatever the table holds. */
  lemma AnswersItself(t: seq<Opt>, f: Flags, acc: Accepts, pre: seq<string>, arg: string, post: seq<string>)
    requires !f.stopAtNonOption && AllPlain(pre) && EndsScan(f, arg).Some?
    ensures ParseArgs(t, f, acc, None, pre + ([arg] + post)) == Result(EndsScan(f, arg).value, pre, [], [])
  {
    hide Resolve, MoreShorts;
    var rest := [arg] + post;
    SkipsPlain(t, f, acc, None, pre, rest);
    ArgsStep(t, f, acc, None, rest);
    LongText(arg);
    if arg[1] != '-' { assert arg[1..][0] == 'h'; }
  }

  lemma LongText(arg: string)
    ensures "--" <= arg ==> (arg == "--help" <==> arg[2..] == "help") && (arg == "--help-all" <==> arg[2..] == "help-all")
    ensures "--" <= arg ==> (arg == "--list-opts" <==> arg[2..] == "list-opts") && (arg == "--list-cmds" <==> arg[2..] == "list-cmds")
  {
    if "--" <= arg { assert arg == "--" + arg[2..]; }
    assert "--help"[2..] == "help" && "--help-all"[2..] == "help-all";
    assert "--list-opts"[2..] == "list-opts" && "--list-cmds"[2..] == "list-cmds";
  }

  /** An unknown option is kept and passed by where that is asked for, and otherwise ends the scan, itself unread. */
  lemma UnknownDecides(t: seq<Opt>, f: Flags, acc: Accepts, pre: seq<string>, arg: string, post: seq<string>)
    requires !f.stopAtNonOption && AllPlain(pre) && IsUnknown(t, f, arg)
    ensures ParseArgs(t, f, acc, None, pre + ([arg] + post)) ==
            if f.keepUnknown then Prepend(pre + [arg], [], ParseArgs(t, f, acc, None, post))
            else Result(UnknownOption, pre, [arg] + post, [])
  {
    hide Resolve, FindShort, MoreShorts;
    var rest := [arg] + post;
    SkipsPlain(t, f, acc, None, pre, rest);
    ArgsStep(t, f, acc, None, rest);
    assert rest[1..] == post;
    LongText(arg);
    if arg[1] != '-' {
      assert "-" + arg[1..] == arg;
    }
    var r := ParseArgs(t, f, acc, None, post);
    assert pre + ([arg] + r.kept) == (pre + [arg]) + r.kept;
  }

  // ----- what is left over

  /** A long option that takes effect has used up the value it was left. */
  lemma LongTakesAll(o: Opt, index: nat, unset: bool, opt: Option<string>, later: seq<string>, acc: Accepts)
    ensures var e := GetValue(o, index, unset, false, opt, later, acc); e.Took? ==> e.opt == None
  {
  }

  /** With names without `=` no argument ever leaves a value to the next. */
  lemma NothingLeftOver(t: seq<Opt>, f: Flags, acc: Accepts, args: seq<string>)
    requires args != [] && PlainNames(t)
    ensures ParseOne(t, f, acc, None, args).Next? ==> ParseOne(t, f, acc, None, args).left == None
  {
    hide FirstShorts, GetValue, Resolve, PlainNames;
    var arg, later := args[0], args[1..];
    if IsOption(arg) && arg[1] == '-' && arg != "--" {
      match Resolve(t, arg[2..], None)
      case Apply(i, unset, value) => LongTakesAll(t[i], i, unset, value, later, acc);
      case KeepArgument(_, _) => PlainNeverLeaks(t, arg[2..], None);
      case _ =>
    }
  }

  function StrOption(name: string): Opt { Opt(Str, None, Some(name), false, false, false, false) }

  /** An option `ab`, an entry standing for `--a=x`, and an option `c`. */
  function LeakyTable(): seq<Opt> { [StrOption("ab"), StrOption("a=x").(kind := Argument), StrOption("c")] }

  lemma LeakyResolves()
    ensures Resolve(LeakyTable(), "a=x", None) == KeepArgument(1, Some("x"))
    ensures Resolve(LeakyTable(), "c", Some("x")) == Apply(2, false, Some("x"))
  {
    var t := LeakyTable();
    assert Stem("a=x") == "a";
    assert MatchOf(t[0], "a=x") == Abbrev(false) && MatchOf(t[0], "c") == NoMatch;
    assert !Stops(t[0], "a=x") && Stops(t[1], "a=x") && !Stops(t[0], "c") && !Stops(t[1], "c") && Stops(t[2], "c");
    FirstStopIs(t, "a=x", 1);
    FirstStopIs(t, "c", 2);
    assert MatchOf(t[..1][0], "a=x") == Abbrev(false);
  }

  /** Where one does: `c` is set to the `x` of the argument before, and its own value is kept as if it were not one. */
  lemma LeftOverTaken(f: Flags, acc: Accepts)
    requires !f.stopAtNonOption
    ensures ParseArgs(LeakyTable(), f, acc, None, ["--a=x", "--c", "v"]) ==
            Result(Finished, ["--a=x", "v"], [], [Setting(2, false, Some("x"))])
  {
    hide Resolve, LeakyTable;
    var t := LeakyTable();
    LeakyResolves();
    var args := ["--a=x", "--c", "v"];
    assert args[0][2..] == "a=x" && args[1][2..] == "c";
    assert args[1..] == ["--c", "v"] && ["--c", "v"][1..] == ["v"] && ["v"][1..] == [];
    assert ParseOne(t, f, acc, None, args) == Next(Some("--a=x"), ["--c", "v"], [], Some("x"));
    assert ParseOne(t, f, acc, Some("x"), ["--c", "v"]) == Next(None, ["v"], [Setting(2, false, Some("x"))], None) by {
      LeakyC(acc);
    }
    assert ParseOne(t, f, acc, None, ["v"]) == Next(Some("v"), [], [], None);
    assert ParseArgs(t, f, acc, None, ["v"]) == Result(Finished, ["v"], [], []);
  }

  lemma LeakyC(acc: Accepts)
    ensures GetValue(LeakyTable()[2], 2, false, false, Some("x"), ["v"], acc) == Took(Setting(2, false, Some("x")), None, ["v"])
    ensures |LeakyTable()| == 3
  {
  }

  // ----- the scan, in place

  function Somes(s: seq<string>): (r: seq<Option<string>>)
    ensures |r| == |s| && forall i :: 0 <= i < |s| ==> r[i] == Some(s[i])
  {
    seq(|s|, i requires 0 <= i < |s| => Some(s[i]))
  }

  /** What has been written once an argument is kept or not. */
  function Extended(written: seq<Option<string>>, kept: Option<string>): seq<Option<string>> {
    written + Somes(Listed(kept))
  }

  lemma NotExtended(written: seq<Option<string>>)
    ensures Extended(written, None) == written
  {
  }

  lemma Accumulates(written: seq<Option<string>>, kept: seq<string>, more: Option<string>)
    ensures Extended(written + Somes(kept), more) == written + Somes(kept + Listed(more))
  {
    assert Somes(kept + Listed(more)) == Somes(kept) + Somes(Listed(more));
  }

  lemma SettingsAccumulate(before: seq<Setting>, done: seq<Setting>, more: seq<Setting>)
    ensures before + done + more == before + (done + more)
  {
  }

  function Values(s: seq<Option<string>>): (r: seq<string>)
    requires forall i :: 0 <= i < |s| ==> s[i].Some?
    ensures |r| == |s| && forall i :: 0 <= i < |s| ==> s[i] == Some(r[i])
  {
    seq(|s|, i requires 0 <= i < |s| && s[i].Some? => s[i].value)
  }

  /** The parsing context: a reading and a writing position in one argument vector. */
  class Context {
    const argv: array<Option<string>>
    const flags: Flags
    var pos: nat
    var argc: nat
    var cpidx: nat
    var opt: Option<string>
    var settings: seq<Setting>

    ghost predicate Valid()
      reads `pos, `argc, `cpidx, argv
    {
      && cpidx <= pos && 1 <= pos && pos + argc + 1 == argv.Length
      && argv[argv.Length - 1] == None
      && forall k :: pos <= k < pos + argc ==> argv[k].Some?
    }

    /** The arguments not read yet; the first is the current one. */
    ghost function Unread(): (s: seq<string>)
      requires Valid()
      reads `pos, `argc, `cpidx, argv
      ensures |s| == argc && forall i :: 0 <= i < argc ==> argv[pos + i] == Some(s[i])
    {
      Values(argv[pos..pos + argc])
    }

    constructor (argv: array<Option<string>>, flags: Flags)
      requires argv.Length >= 2 && argv[argv.Length - 1] == None
      requires forall k :: 0 <= k < argv.Length - 1 ==> argv[k].Some?
      ensures Valid() && this.argv == argv && this.flags == flags
      ensures pos == 1 && argc == argv.Length - 2 && settings == [] && opt == None
      ensures cpidx == if flags.keepArgv0 then 1 else 0
    {
      this.argv, this.flags := argv, flags;
      pos, argc := 1, argv.Length - 2;
      cpidx := if flags.keepArgv0 then 1 else 0;
      settings, opt := [], None;
    }

    // ----- values of options

    /** Take an argument for option `o`, from the current argument or from the next one. */
    method GetArgument(o: Opt, index: nat) returns (ok: bool, arg: Option<string>)
      requires Valid() && argc >= 1
      modifies this
      ensures Valid() && argc >= 1 && pos >= old(pos) && cpidx == old(cpidx) && settings == old(settings)
      ensures var e := GetArg(o, index, old(opt), old(Unread())[1..]);
              if ok then e == Took(Setting(index, false, arg), opt, Unread()[1..]) else e == Bad
    {
      ok, arg := true, None;
      if opt.Some? {
        arg, opt := opt, None;
      } else if o.lastargDefault && (argc == 1 || "-" <= argv[pos + 1].value) {
      } else if argc > 1 {
        pos, argc := pos + 1, argc - 1;
        arg := argv[pos];
      } else {
        ok := false;
      }
    }

    /** Apply option `o`: it takes effect exactly when `GetValue` says so. */
    method ApplyOption(o: Opt, index: nat, unset: bool, short: bool, accepts: Accepts) returns (code: Option<Code>)
      requires Valid() && argc >= 1
      modifies this
      ensures Valid() && argc >= 1 && pos >= old(pos) && cpidx == old(cpidx)
      ensures match GetValue(o, index, unset, short, old(opt), old(Unread())[1..], accepts)
              case Bad => code == Some(Usage) && settings == old(settings)
              case Fatal => code == Some(Died) && settings == old(settings)
              case Took(s, p, later) =>
                code == None && settings == old(settings) + [s] && opt == p && Unread()[1..] == later
    {
      hide Unread, GetArg, Refuses, NeedsArg, Judges;
      if Refuses(o, unset, short, opt) { return Some(Usage); }
      if o.kind.Argument? || o.kind.Group? { return Some(Died); }
      var setting := Setting(index, unset, None);
      var needs := NeedsArg(o, unset, opt);
      if needs {
        var ok, arg := GetArgument(o, index);
        if !ok { return Some(Usage); }
        setting := Setting(index, false, arg);
      }
      if Judges(o, needs) && !accepts(index, setting.arg, setting.unset) { return Some(Usage); }
      settings := settings + [setting];
      code := None;
    }

    // ----- switches

    method ParseShortOpt(table: seq<Opt>, accepts: Accepts) returns (known: bool, code: Option<Code>)
      requires Valid() && argc >= 1 && opt.Some? && opt.value != ""
      modifies this
      ensures Valid() && argc >= 1 && pos >= old(pos) && cpidx == old(cpidx)
      ensures match ShortOne(table, old(opt).value, old(Unread())[1..], accepts)
              case None => !known && settings == old(settings) && opt == old(opt) && Unread() == old(Unread())
              case Some(Bad) => known && code == Some(Usage) && settings == old(settings)
              case Some(Fatal) => known && code == Some(Died) && settings == old(settings)
              case Some(Took(s, p, later)) =>
                known && code == None && settings == old(settings) + [s] && opt == p && Unread()[1..] == later
    {
      hide Unread, GetValue;
      var text := opt.value;
      known, code := false, None;
      var i := 0;
      while i < |table|
        invariant 0 <= i <= |table|
        invariant forall k :: 0 <= k < i ==> table[k].shortName != Some(text[0])
        invariant Valid() && unchanged(this)
      {
        if table[i].shortName == Some(text[0]) {
          opt := if |text| > 1 then Some(text[1..]) else None;
          assert FindShort(table, text[0]) == i;
          code := ApplyOption(table[i], i, false, true, accepts);
          return true, code;
        }
        i := i + 1;
      }
    }

    /** Has the group of switches ended as `r` says? */
    ghost predicate Ended(r: Shorts, later: seq<string>, before: seq<Setting>, how: GroupEnd)
      requires Valid() && argc >= 1
      reads this, argv
    {
      && settings == before + r.settings
      && match r
         case AllTaken(l, _) => how == TookAll && opt == None && Unread()[1..] == l
         case UnknownAt(text, _) => how == HitUnknown && opt == Some(text) && Unread()[1..] == later
         case StopAt(c, _) => how == Stopped(c)
    }

    /** The switches after the first, while one leaves something unread of the argument. */
    method MoreSwitches(table: seq<Opt>, accepts: Accepts) returns (how: GroupEnd)
      requires Valid() && argc >= 1 && opt.Some? && opt.value != ""
      modifies this
      ensures Valid() && argc >= 1 && pos >= old(pos) && cpidx == old(cpidx)
      ensures Ended(MoreShorts(table, flags, accepts, old(opt).value, old(Unread())[1..]),
                    old(Unread())[1..], old(settings), how)
    {
      hide Unread, ShortOne, MoreShorts, WithSettings;
      ghost var later := Unread()[1..];
      WithNone(MoreShorts(table, flags, accepts, opt.value, later));
      ghost var all := MoreShorts(table, flags, accepts, opt.value, later);
      ghost var before: seq<Setting> := [];
      while opt.Some?
        invariant Valid() && argc >= 1 && pos >= old(pos) && cpidx == old(cpidx)
        invariant settings == old(settings) + before
        invariant opt.Some? ==> opt.value != "" && Unread()[1..] == later
        invariant opt.Some? ==> all == WithSettings(before, MoreShorts(table, flags, accepts, opt.value, later))
        invariant opt == None ==> all == AllTaken(Unread()[1..], before)
        decreases if opt.Some? then 1 + |opt.value| else 0
      {
        ghost var one := ShortOne(table, opt.value, later, accepts);
        SwitchStep(table, flags, accepts, before, opt.value, later);
        if !flags.noInternalHelp && opt.value[0] == 'h' { return Stopped(Help); }
        var known, code := ParseShortOpt(table, accepts);
        if !known { return HitUnknown; }
        if code.Some? { return Stopped(code.value); }
        SettingsAccumulate(old(settings), before, [one.value.setting]);
        before := before + [one.value.setting];
      }
      how := TookAll;
    }

    /** A whole group of switches. */
    method Switches(table: seq<Opt>, accepts: Accepts, text: string) returns (how: GroupEnd)
      requires Valid() && argc >= 1 && text != ""
      modifies this
      ensures Valid() && argc >= 1 && pos >= old(pos) && cpidx == old(cpidx)
      ensures Ended(FirstShorts(table, flags, accepts, text, old(Unread())[1..]), old(Unread())[1..], old(settings), how)
    {
      hide Unread, ShortOne, MoreShorts, LooksLong;
      opt := Some(text);
      ghost var later := Unread()[1..];
      SwitchStep(table, flags, accepts, [], text, later);
      if !flags.noInternalHelp && text[0] == 'h' { return Stopped(Help); }
      var known, code := ParseShortOpt(table, accepts);
      if !known { return HitUnknown; }
      if code.Some? { return Stopped(code.value); }
      if opt == None { return TookAll; }
      var typo := CheckTypos(table, text);
      if typo { return Stopped(Typo); }
      how := MoreSwitches(table, accepts);
    }

    // ----- the loop over the arguments

    /** Has one argument been dealt with as `r` says, having kept what it says? */
    ghost predicate Dealt(r: OneArg, written: seq<Option<string>>, before: seq<Setting>, code: Option<Code>)
      requires Valid()
      reads this, argv
    {
      match r
      case Next(kept, later, ss, left) =>
        code == None && Unread() == later && opt == left && settings == before + ss && argv[..cpidx] == Extended(written, kept)
      case Halt(c, rest, ss) =>
        code == Some(c) && Unread() == rest && settings == before + ss && argv[..cpidx] == written
      case Abort(c, ss) =>
        code == Some(c) && settings == before + ss && argv[..cpidx] == written
    }

    /** Write one argument at the copying position. */
    method Copy(kept: string)
      requires Valid() && argc >= 1
      modifies this`cpidx, this`pos, this`argc, argv
      ensures pos == old(pos) + 1 && forall k :: pos <= k < argv.Length ==> argv[k] == old(argv[k])
      ensures Valid() && Unread() == old(Unread())[1..]
      ensures argv[..cpidx] == Extended(old(argv[..cpidx]), Some(kept))
    {
      argv[cpidx] := Some(kept);
      cpidx := cpidx + 1;
      pos, argc := pos + 1, argc - 1;
    }

    /** Replace the current argument. */
    method Rewrite(text: string)
      requires Valid() && argc >= 1
      modifies argv
      ensures Valid() && Unread() == [text] + old(Unread())[1..]
      ensures argv[..cpidx] == old(argv[..cpidx]) && forall k :: pos < k < argv.Length ==> argv[k] == old(argv[k])
    {
      argv[pos] := Some(text);
    }

    method Advance()
      requires Valid() && argc >= 1
      modifies this`pos, this`argc
      ensures pos == old(pos) + 1
      ensures Valid() && Unread() == old(Unread())[1..]
    {
      pos, argc := pos + 1, argc - 1;
    }

    method StepSwitches(table: seq<Opt>, accepts: Accepts) returns (code: Option<Code>)
      requires Valid() && argc >= 1 && IsOption(Unread()[0])
      modifies this, argv
      ensures pos >= old(pos)
      ensures code != Some(UnknownOption) ==> forall k :: pos <= k < argv.Length ==> argv[k] == old(argv[k])
      ensures Valid() && Dealt(ParseShortArg(table, flags, accepts, old(Unread())[0], old(Unread())[1..]),
                               old(argv[..cpidx]), old(settings), code)
    {
      hide Unread, FirstShorts, Extended;
      NotExtended(argv[..cpidx]);
      var arg := argv[pos].value;
      var how := Switches(table, accepts, arg[1..]);
      match how {
        case TookAll =>
          Advance();
          code := None;
        case Stopped(c) => code := Some(c);
        case HitUnknown =>
          Rewrite("-" + opt.value);
          if !flags.keepUnknown { return Some(UnknownOption); }
          Copy("-" + opt.value);
          opt := None;
          code := None;
      }
    }

    method StepResolved(table: seq<Opt>, accepts: Accepts) returns (code: Option<Code>)
      requires Valid() && argc >= 1 && |Unread()[0]| > 2
      modifies this, argv
      ensures pos >= old(pos)
      ensures code != Some(UnknownOption) ==> forall k :: pos <= k < argv.Length ==> argv[k] == old(argv[k])
      ensures Valid() && Dealt(ParseResolved(table, flags, accepts, old(opt), old(Unread())[0], old(Unread())[1..]),
                               old(argv[..cpidx]), old(settings), code)
    {
      hide Unread, Resolve, GetValue, Extended;
      NotExtended(argv[..cpidx]);
      var arg := argv[pos].value;
      var r := ParseLongOpt(table, arg[2..], opt);
      match r {
        case Unknown =>
          if !flags.keepUnknown { return Some(UnknownOption); }
          Copy(arg);
          opt, code := None, None;
        case KeepArgument(_, left) =>
          Copy(arg);
          opt, code := left, None;
        case Apply(i, unset, value) =>
          opt := value;
          code := ApplyOption(table[i], i, unset, false, accepts);
          if code == None { Advance(); }
        case _ => code := Some(Usage);
      }
    }

    method StepLong(table: seq<Opt>, accepts: Accepts) returns (code: Option<Code>)
      requires Valid() && argc >= 1 && |Unread()[0]| > 2
      modifies this, argv
      ensures pos >= old(pos)
      ensures code != Some(UnknownOption) ==> forall k :: pos <= k < argv.Length ==> argv[k] == old(argv[k])
      ensures Valid() && Dealt(ParseLongArg(table, flags, accepts, old(opt), old(Unread())[0], old(Unread())[1..]),
                               old(argv[..cpidx]), old(settings), code)
    {
      hide Unread, ParseResolved, Extended;
      var text := argv[pos].value[2..];
      if !flags.noInternalHelp && (text == "help-all" || text == "help") { return Some(Help); }
      if text == "list-opts" { return Some(ListOpts); }
      if text == "list-cmds" { return Some(ListCmds); }
      code := StepResolved(table, accepts);
    }

    /** One turn of the loop; None means the loop goes on. */
    method StepOne(table: seq<Opt>, accepts: Accepts) returns (code: Option<Code>)
      requires Valid() && argc >= 1
      modifies this, argv
      ensures pos >= old(pos)
      ensures code != Some(UnknownOption) ==> forall k :: pos <= k < argv.Length ==> argv[k] == old(argv[k])
      ensures Valid() && Dealt(ParseOne(table, flags, accepts, old(opt), old(Unread())), old(argv[..cpidx]), old(settings), code)
    {
      hide Unread, ParseShortArg, ParseLongArg, Extended;
      var arg := argv[pos].value;
      if !IsOption(arg) {
        if flags.stopAtNonOption { return Some(Finished); }
        Copy(arg);
        return None;
      }
      if arg[1] != '-' {
        code := StepSwitches(table, accepts);
      } else if |arg| == 2 {
        if !flags.keepDashDash { Advance(); }
        code := Some(Finished);
      } else {
        code := StepLong(table, accepts);
      }
    }

    /** The scan does, in place, what `ParseArgs` does on values. */
    method Step(table: seq<Opt>, accepts: Accepts) returns (code: Code)
      requires Valid()
      modifies this, argv
      ensures Valid()
      ensures var r := ParseArgs(table, flags, accepts, None, old(Unread()));
              && code == r.code && settings == old(settings) + r.settings
              && argv[..cpidx] == old(argv[..cpidx]) + Somes(r.kept)
              && (!Early(code) ==> Unread() == r.rest)
      ensures !code.UnknownOption? ==> forall k :: pos <= k < argv.Length ==> argv[k] == old(argv[k])
    {
      hide Unread, ParseOne, ParseArgs, Somes, Listed, Extended;
      opt := None;
      assert Somes([]) == [];
      ghost var args := Unread();
      ghost var kept: seq<string>, done: seq<Setting> := [], [];
      while argc > 0
        invariant Valid() && forall k :: pos <= k < argv.Length ==> argv[k] == old(argv[k])
        invariant settings == old(settings) + done && argv[..cpidx] == old(argv[..cpidx]) + Somes(kept)
        invariant ParseArgs(table, flags, accepts, None, args) ==
                  Prepend(kept, done, ParseArgs(table, flags, accepts, opt, Unread()))
        decreases argc
      {
        ghost var one := ParseOne(table, flags, accepts, opt, Unread());
        ScanStep(table, flags, accepts, opt, Unread(), kept, done);
        AbortIsEarly(table, flags, accepts, opt, Unread());
        if one.Next? { Accumulates(old(argv[..cpidx]), kept, one.kept); }
        SettingsAccumulate(old(settings), done, one.settings);
        var stop := StepOne(table, accepts);
        if stop.Some? { return stop.value; }
        kept, done := kept + Listed(one.kept), done + one.settings;
      }
      ScanEnd(table, flags, accepts, opt, kept, done);
      code := Finished;
    }

    /** Move what is unread down behind what was kept, and end the vector there. */
    method End() returns (n: nat)
      requires Valid()
      modifies argv
      ensures n == cpidx + argc < argv.Length && argv[n] == None
      ensures argv[..n] == old(argv[..cpidx]) + Somes(old(Unread()))
    {
      hide Unread;
      n := cpidx + argc;
      assert Somes(Unread()) == argv[pos..pos + argc];
      MoveDown(argv, cpidx, pos, argc);
      argv[n] := None;
    }
  }

  /**
   The whole of it. When the options end normally the vector holds the program name if it is kept, then
   what was kept, then what was left unread, and is ended there: every slot within the original vector.
   */
  method Parse(argv: array<Option<string>>, table: seq<Opt>, flags: Flags, accepts: Accepts)
    returns (code: Code, n: nat, settings: seq<Setting>)
    requires argv.Length >= 2 && argv[argv.Length - 1] == None
    requires forall k :: 0 <= k < argv.Length - 1 ==> argv[k].Some?
    modifies argv
    ensures flags.keepUnknown && flags.stopAtNonOption ==> code == Died && argv[..] == old(argv[..])
    ensures var r := ParseArgs(table, flags, accepts, None, Values(old(argv[1..argv.Length - 1])));
            !(flags.keepUnknown && flags.stopAtNonOption) ==>
              && code == r.code && settings == r.settings
              && (code.Finished? ==>
                  && n < argv.Length && argv[n] == None
                  && argv[..n] == (if flags.keepArgv0 then [old(argv[0])] else []) + Somes(r.kept) + Somes(r.rest))
  {
    hide ParseArgs, Somes;
    code, n, settings := Died, 0, [];
    if flags.keepUnknown && flags.stopAtNonOption { return; }
    var ctx := new Context(argv, flags);
    assert ctx.Unread() == Values(old(argv[1..argv.Length - 1]));
    assert argv[..ctx.cpidx] == if flags.keepArgv0 then [argv[0]] else [];
    code := ctx.Step(table, accepts);
    settings := ctx.settings;
    if code == Finished { n := ctx.End(); }
  }
}
