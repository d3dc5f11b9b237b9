/**
 Long-option resolution in idxd/util/parse-options.c: how the text after two dashes is matched against
 the option table, with abbreviations and negations.
 */
module LongOptions {
  import opened Prelude

  datatype OptType =
    | Argument | Group
    | BitOpt | Boolean | Incr | SetUint | SetPtr
    | Str | Filename | Integer | Uinteger | Long | U64 | Callback

  /** A table entry; the terminating entry of the source is the end of the sequence. */
  datatype Opt = Opt(
    kind: OptType,
    shortName: Option<char>,
    longName: Option<string>,
    optarg: bool,
    noarg: bool,
    noneg: bool,
    lastargDefault: bool)

  /** How one option relates to the argument: its full name, an abbreviation, or neither. */
  datatype Match = NoMatch | Exact(unset: bool, value: Option<string>) | Abbrev(unset: bool)

  predicate Negated(m: Match) { !m.NoMatch? && m.unset }

  /** The argument up to its first `=`. */
  function Stem(arg: string): (s: string)
    ensures s <= arg && '=' !in s
    ensures |s| < |arg| ==> arg[|s|] == '='
  {
    if arg == [] || arg[0] == '=' then [] else [arg[0]] + Stem(arg[1..])
  }

  /** What follows the first `=`, if there is one. */
  function ValuePart(arg: string): Option<string> {
    if |Stem(arg)| < |arg| then Some(arg[|Stem(arg)| + 1..]) else None
  }

  /** The text after a full name must be empty or introduce a value. */
  function AfterName(rest: string, unset: bool): Match {
    if rest == [] then Exact(unset, None)
    else if rest[0] == '=' then Exact(unset, Some(rest[1..]))
    else NoMatch
  }

  /** The cascade of tests of the source, in its order. */
  function Classify(name: string, arg: string): Match {
    if name <= arg then AfterName(arg[|name|..], false)
    else if "no-" <= name && name[3..] <= arg then AfterName(arg[|name| - 3..], true)
    else if "no-" <= name && arg <= name[3..] then Abbrev(true)
    else if Stem(arg) <= name then Abbrev(false)
    else if arg <= "no-" then Abbrev(true)
    else if !("no-" <= arg) then NoMatch
    else if name <= arg[3..] then AfterName(arg[3 + |name|..], true)
    else if arg[3..] <= name then Abbrev(true)
    else NoMatch
  }

  /** What the scan of the table concludes. */
  datatype Resolution =
    | Apply(index: nat, unset: bool, value: Option<string>)
    | KeepArgument(index: nat, left: Option<string>)
    | TakesNoValue(index: nat)
    | Ambiguous(first: nat, second: nat)
    | Unknown

  function MatchOf(o: Opt, arg: string): Match {
    if o.longName.None? || o.kind.Argument? then NoMatch else Classify(o.longName.value, arg)
  }

  /** An entry that stands for itself: its name, alone, is passed through. */
  predicate IsArgument(o: Opt, arg: string) {
    o.kind.Argument? && o.longName.Some? && o.longName.value <= arg
    && (arg[|o.longName.value|..] == [] || arg[|o.longName.value|] == '=')
  }

  /** The scan stops at this entry. */
  predicate Stops(o: Opt, arg: string) { IsArgument(o, arg) || MatchOf(o, arg).Exact? }

  function FirstStop(table: seq<Opt>, arg: string): (i: nat)
    ensures i <= |table|
    ensures i < |table| ==> Stops(table[i], arg)
  {
    if table == [] || Stops(table[0], arg) then 0 else 1 + FirstStop(table[1..], arg)
  }

  /** It is the first entry that stops the scan. */
  lemma {:induction false} FirstStopIs(table: seq<Opt>, arg: string, i: nat)
    requires i <= |table|
    requires forall k :: 0 <= k < i ==> !Stops(table[k], arg)
    requires i < |table| ==> Stops(table[i], arg)
    ensures FirstStop(table, arg) == i
    decreases |table|
  {
    hide Stops;
    if i > 0 { FirstStopIs(table[1..], arg, i - 1); }
  }

  /** The positions of the abbreviation candidates, in table order. */
  function Candidates(table: seq<Opt>, arg: string): (c: seq<nat>)
    ensures forall k :: 0 <= k < |c| ==> c[k] < |table|
  {
    if table == [] then []
    else
      var n := |table| - 1;
      Candidates(table[..n], arg) + if MatchOf(table[n], arg).Abbrev? then [n] else []
  }

  ghost predicate Increasing(c: seq<nat>) { forall j, k :: 0 <= j < k < |c| ==> c[j] < c[k] }

  /** Exactly the candidates, each once. */
  lemma {:induction false} CandidatesExact(table: seq<Opt>, arg: string)
    ensures forall i :: i in Candidates(table, arg) <==> 0 <= i < |table| && MatchOf(table[i], arg).Abbrev?
    ensures Increasing(Candidates(table, arg))
  {
    hide MatchOf;
    if table != [] {
      var n := |table| - 1;
      var d, c := Candidates(table[..n], arg), Candidates(table, arg);
      CandidatesExact(table[..n], arg);
      forall i | 0 <= i < n ensures table[..n][i] == table[i] {}
      forall j, k | 0 <= j < k < |c| ensures c[j] < c[k] {
        assert c[j] == d[j] < n;
        if k < |d| { assert c[k] == d[k]; } else { assert c[k] == n; }
      }
    }
  }

  /** A candidate that is not negated leaves the value part pending for whatever is applied in the end. */
  predicate LeavesValue(table: seq<Opt>, arg: string) {
    exists i :: 0 <= i < |table| && MatchOf(table[i], arg) == Abbrev(false)
  }

  function Pending(table: seq<Opt>, arg: string, left: Option<string>): Option<string> {
    if LeavesValue(table, arg) && ValuePart(arg).Some? then ValuePart(arg) else left
  }

  /**
   An exact match takes its own value; one that has none inherits what an earlier candidate, or an earlier
   argument (`left`), has left. An entry that stands for itself leaves it to the next argument.
   */
  function AtStop(table: seq<Opt>, arg: string, left: Option<string>, i: nat): Resolution
    requires i < |table| && Stops(table[i], arg)
  {
    var o := table[i];
    if IsArgument(o, arg) then
      if arg[|o.longName.value|..] == [] then KeepArgument(i, Pending(table[..i], arg, left)) else TakesNoValue(i)
    else
      var m := MatchOf(o, arg);
      Apply(i, m.unset, if m.value.Some? then m.value else Pending(table[..i], arg, left))
  }

  /**
   The meaning of a long option: the first entry that matches by its full name wins, whatever
   abbreviations come before or after it; failing that a single abbreviation is applied, two or more
   are ambiguous, and none is unknown.
   */
  function Resolve(table: seq<Opt>, arg: string, left: Option<string>): (r: Resolution)
    ensures r.Apply? ==> r.index < |table|
  {
    var i, c := FirstStop(table, arg), Candidates(table, arg);
    if i < |table| then AtStop(table, arg, left, i)
    else if |c| == 0 then Unknown
    else if |c| == 1 then Apply(c[0], Negated(MatchOf(table[c[0]], arg)), Pending(table, arg, left))
    else Ambiguous(c[|c| - 2], c[|c| - 1])
  }

  /** The scan of the source: one pass that remembers the last two candidates and the pending value. */
  method ParseLongOpt(table: seq<Opt>, arg: string, left: Option<string>) returns (r: Resolution)
    ensures r == Resolve(table, arg, left)
  {
    hide Classify, Stem, Candidates, FirstStop, Pending, ValuePart, MatchOf, Remembered;
    NoneYet(table, arg, left);
    var opt := left;
    var abbrev: Option<nat>, ambiguous: Option<nat> := None, None;
    var i := 0;
    while i < |table|
      invariant 0 <= i <= |table|
      invariant forall k :: 0 <= k < i ==> !Stops(table[k], arg)
      invariant opt == Pending(table[..i], arg, left)
      invariant Remembered(Candidates(table[..i], arg), ambiguous, abbrev)
    {
      var o := table[i];
      OneMore(table, arg, left, i);
      if IsArgument(o, arg) {
        FirstStopIs(table, arg, i);
        return if arg[|o.longName.value|..] == [] then KeepArgument(i, opt) else TakesNoValue(i);
      }
      match MatchOf(o, arg) {
        case Exact(unset, value) =>
          FirstStopIs(table, arg, i);
          return Apply(i, unset, if value.Some? then value else opt);
        case Abbrev(unset) =>
          RememberNext(Candidates(table[..i], arg), ambiguous, abbrev, i);
          ambiguous := abbrev;
          if !unset && ValuePart(arg).Some? {
            opt := ValuePart(arg);
          }
          abbrev := Some(i);
        case NoMatch =>
      }
      i := i + 1;
    }
    assert table[..i] == table;
    FirstStopIs(table, arg, |table|);
    Recall(Candidates(table, arg), ambiguous, abbrev);
    if ambiguous.Some? {
      return Ambiguous(ambiguous.value, abbrev.value);
    }
    if abbrev.Some? {
      return Apply(abbrev.value, Negated(MatchOf(table[abbrev.value], arg)), opt);
    }
    return Unknown;
  }

  /** The two remembered candidates are the last two. */
  ghost predicate Remembered(c: seq<nat>, ambiguous: Option<nat>, abbrev: Option<nat>) {
    && abbrev == (if |c| == 0 then None else Some(c[|c| - 1]))
    && ambiguous == (if |c| <= 1 then None else Some(c[|c| - 2]))
  }

  lemma RememberNext(c: seq<nat>, ambiguous: Option<nat>, abbrev: Option<nat>, i: nat)
    requires Remembered(c, ambiguous, abbrev)
    ensures Remembered(c + [i], abbrev, Some(i))
  {
  }

  lemma Recall(c: seq<nat>, ambiguous: Option<nat>, abbrev: Option<nat>)
    requires Remembered(c, ambiguous, abbrev)
    ensures abbrev == (if |c| == 0 then None else Some(c[|c| - 1]))
    ensures ambiguous == (if |c| <= 1 then None else Some(c[|c| - 2]))
  {
  }

  lemma NoneYet(table: seq<Opt>, arg: string, left: Option<string>)
    ensures Remembered(Candidates(table[..0], arg), None, None) && Pending(table[..0], arg, left) == left
  {
  }

  lemma OneMore(table: seq<Opt>, arg: string, left: Option<string>, i: nat)
    requires i < |table|
    ensures Candidates(table[..i + 1], arg) ==
            if MatchOf(table[i], arg).Abbrev? then Candidates(table[..i], arg) + [i] else Candidates(table[..i], arg)
    ensures Pending(table[..i + 1], arg, left) ==
            if MatchOf(table[i], arg) == Abbrev(false) && ValuePart(arg).Some? then ValuePart(arg)
            else Pending(table[..i], arg, left)
  {
    hide Classify, Stem;
    assert table[..i + 1][..i] == table[..i];
    forall k | 0 <= k < i ensures table[..i + 1][k] == table[..i][k] {}
    if LeavesValue(table[..i], arg) {
      var k :| 0 <= k < i && MatchOf(table[..i][k], arg) == Abbrev(false);
      assert MatchOf(table[..i + 1][k], arg) == Abbrev(false);
    }
    if MatchOf(table[i], arg) == Abbrev(false) { assert MatchOf(table[..i + 1][i], arg) == Abbrev(false); }
  }

  // ----- what the resolution means

  /** The first entry that matches by full name is applied, whatever abbreviations the table also holds. */
  lemma ExactWins(table: seq<Opt>, arg: string, left: Option<string>, i: nat)
    requires i < |table| && MatchOf(table[i], arg).Exact?
    requires forall k :: 0 <= k < i ==> !Stops(table[k], arg)
    ensures Resolve(table, arg, left).Apply? && Resolve(table, arg, left).index == i
    ensures Resolve(table, arg, left).unset == MatchOf(table[i], arg).unset
  {
    FirstStopIs(table, arg, i);
  }

  /** Without a full match the outcome is decided by how many abbreviation candidates there are. */
  lemma AbbreviationsDecide(table: seq<Opt>, arg: string, left: Option<string>)
    requires forall k :: 0 <= k < |table| ==> !Stops(table[k], arg)
    ensures Resolve(table, arg, left).Unknown? <==> forall i :: 0 <= i < |table| ==> !MatchOf(table[i], arg).Abbrev?
    ensures Resolve(table, arg, left).Ambiguous? <==>
            exists i, j :: 0 <= i < j < |table| && MatchOf(table[i], arg).Abbrev? && MatchOf(table[j], arg).Abbrev?
    ensures forall i :: 0 <= i < |table| && MatchOf(table[i], arg).Abbrev? && !Resolve(table, arg, left).Ambiguous?
              ==> Resolve(table, arg, left) == Apply(i, Negated(MatchOf(table[i], arg)), Pending(table, arg, left))
  {
    hide MatchOf, Stops, Candidates, FirstStop, Pending;
    var c := Candidates(table, arg);
    FirstStopIs(table, arg, |table|);
    CandidatesExact(table, arg);
    if |c| <= 1 {
      forall i, j | 0 <= i < j < |table| && MatchOf(table[i], arg).Abbrev? ensures !MatchOf(table[j], arg).Abbrev? {
        assert i in c;
      }
      if |c| == 1 { assert c[0] in c; }
    } else {
      var i, j := c[|c| - 2], c[|c| - 1];
      assert i in c && j in c;
      assert 0 <= i < j < |table| && MatchOf(table[i], arg).Abbrev? && MatchOf(table[j], arg).Abbrev?;
    }
  }

  /** The only candidate gets the text after `=`, unless it is negated, or what was left over if there is none. */
  lemma AbbreviationValue(table: seq<Opt>, arg: string, left: Option<string>, i: nat)
    requires forall k :: 0 <= k < |table| ==> !Stops(table[k], arg)
    requires i < |table| && MatchOf(table[i], arg).Abbrev?
    requires forall k :: 0 <= k < |table| && k != i ==> !MatchOf(table[k], arg).Abbrev?
    ensures var unset := MatchOf(table[i], arg).unset;
            Resolve(table, arg, left) == Apply(i, unset, if !unset && ValuePart(arg).Some? then ValuePart(arg) else left)
  {
    hide Classify, Candidates, Stem;
    AbbreviationsDecide(table, arg, left);
  }

  /** An ambiguity names the last two candidates. */
  lemma AmbiguityNames(table: seq<Opt>, arg: string, left: Option<string>, k: nat)
    requires Resolve(table, arg, left).Ambiguous? && k < |table| && MatchOf(table[k], arg).Abbrev?
    ensures var r := Resolve(table, arg, left);
            && r.first < r.second < |table| && MatchOf(table[r.first], arg).Abbrev? && MatchOf(table[r.second], arg).Abbrev?
            && (k <= r.first || k == r.second)
  {
    hide MatchOf;
    var c := Candidates(table, arg);
    CandidatesExact(table, arg);
    var n := |c|;
    assert c[n - 2] in c && c[n - 1] in c && k in c;
    var j :| 0 <= j < n && c[j] == k;
  }

  predicate Plain(name: string) { '=' !in name }

  lemma PlainAt(name: string)
    requires Plain(name)
    ensures forall i :: 0 <= i < |name| ==> name[i] != '='
  {
    forall i | 0 <= i < |name| ensures name[i] != '=' { assert name[i] in name; }
  }

  /** A name without `=` is matched in full and un-negated by exactly the arguments whose stem it is. */
  lemma ExactIsStem(name: string, arg: string)
    requires Plain(name)
    ensures Classify(name, arg) == Exact(false, ValuePart(arg)) <==> Stem(arg) == name
    ensures Classify(name, arg).Exact? && !Classify(name, arg).unset ==> Stem(arg) == name
  {
    var s := Stem(arg);
    PlainAt(name);
    PlainAt(s);
    if name <= arg {
      assert |name| < |s| ==> arg[|name|] == s[|name|];
    }
  }

  lemma {:induction false} StemBefore(x: string, arg: string)
    requires Plain(x) && x <= arg && (|x| < |arg| ==> arg[|x|] == '=')
    ensures Stem(arg) == x
    decreases |x|
  {
    PlainAt(x);
    if x != [] {
      assert x[0] == arg[0];
      StemBefore(x[1..], arg[1..]);
    }
  }

  /** A full match by a name without `=` carries exactly the value part of the argument. */
  lemma ExactValue(name: string, arg: string)
    requires Plain(name) && Classify(name, arg).Exact?
    ensures Classify(name, arg).value == ValuePart(arg)
  {
    PlainAt(name);
    if name <= arg {
      StemBefore(name, arg);
    } else if "no-" <= name && name[3..] <= arg {
      PlainAt(name[3..]);
      StemBefore(name[3..], arg);
    } else {
      assert "no-" <= arg && name <= arg[3..];
      var x := "no-" + name;
      assert x <= arg && Plain(x);
      StemBefore(x, arg);
    }
  }

  ghost predicate PlainNames(table: seq<Opt>) {
    forall i :: 0 <= i < |table| && table[i].longName.Some? ==> Plain(table[i].longName.value)
  }

  /** With such names nothing leaks from an abbreviation into the exact match that overrides it. */
  lemma ExactWinsCleanly(table: seq<Opt>, arg: string, left: Option<string>, i: nat)
    requires PlainNames(table) && i < |table| && MatchOf(table[i], arg).Exact?
    requires forall k :: 0 <= k < i ==> !Stops(table[k], arg)
    ensures Resolve(table, arg, left) ==
            Apply(i, MatchOf(table[i], arg).unset, if ValuePart(arg).Some? then ValuePart(arg) else left)
  {
    hide Classify;
    ExactWins(table, arg, left, i);
    ExactValue(table[i].longName.value, arg);
    FirstStopIs(table, arg, i);
  }

  // ----- abbreviations and negations

  lemma ProperStem(name: string, arg: string)
    requires Plain(name)
    ensures Stem(arg) < name ==> !(name <= arg)
    ensures Stem(arg) <= name && name <= arg ==> Stem(arg) == name
  {
    PlainAt(name);
    assert forall i :: 0 <= i < |name| ==> name[i] != '=';
  }

  lemma NegatedPrefix(name: string, arg: string)
    ensures arg <= "no-" + name <==> arg <= "no-" || ("no-" <= arg && arg[3..] <= name)
  {
    var whole := "no-" + name;
    if arg <= whole && |arg| >= 3 { assert arg[3..] == whole[3..|arg|] == name[..|arg| - 3]; }
    if "no-" <= arg { assert arg == "no-" + arg[3..]; }
  }

  /**
   A name that is not itself a negation is abbreviated plainly by exactly the proper beginnings of the name, with
   or without a value, and abbreviated as negated by the proper beginnings of the name with `no-` before it that
   do not begin the name, nor begin with it.
   */
  lemma AbbreviatedExactly(name: string, arg: string)
    requires Plain(name) && !("no-" <= name)
    ensures Classify(name, arg) == Abbrev(false) <==> Stem(arg) < name
    ensures Classify(name, arg) == Abbrev(true) <==> arg < "no-" + name && !(Stem(arg) <= name) && !(name <= arg)
  {
    hide Stem;
    ProperStem(name, arg);
    NegatedPrefix(name, arg);
    if "no-" <= arg && name <= arg[3..] { assert |arg| >= |"no-" + name|; }
  }

  /**
   A name that is a negation: its proper beginnings without the `no-` abbreviate it as un-negated, that is, unset it;
   its other proper beginnings abbreviate it plainly; and so does a second `no-` before a beginning unset it.
   */
  lemma NegatedNameAbbreviated(name: string, arg: string)
    requires Plain(name) && "no-" <= name
    ensures var base := name[3..];
            && (Classify(name, arg) == Abbrev(false) <==> Stem(arg) < name && !(base <= arg) && !(arg <= base))
            && (Classify(name, arg) == Abbrev(true) <==>
                  && !(name <= arg) && !(base <= arg)
                  && (arg < base || ("no-" <= arg && arg[3..] < name && !(Stem(arg) <= name))))
  {
    hide Stem;
    ProperStem(name, arg);
    ShortBegins(arg, name);
  }

  lemma ShortBegins(arg: string, name: string)
    requires "no-" <= name
    ensures arg <= "no-" ==> Stem(arg) <= name
  {
  }

  /** A full match is a negation exactly when the stem is the name with `no-` before it, or the name without its own. */
  lemma NegatedExactly(name: string, arg: string)
    requires Plain(name)
    ensures Classify(name, arg).Exact? && Classify(name, arg).unset <==>
            && !(name <= arg)
            && Stem(arg) == if "no-" <= name && name[3..] <= arg then name[3..] else "no-" + name
  {
    PlainAt(name);
    var x := "no-" + name;
    assert Plain(x) && x[3..] == name;
    if "no-" <= name && name[3..] <= arg {
      StemAfter(name[3..], arg);
    } else if "no-" <= arg && name <= arg[3..] {
      assert x <= arg;
      StemAfter(x, arg);
    }
  }

  /** A beginning without `=` is the stem exactly when the argument ends there or goes on with `=`. */
  lemma StemAfter(x: string, arg: string)
    requires Plain(x) && x <= arg
    ensures Stem(arg) == x <==> |x| == |arg| || arg[|x|] == '='
  {
    hide Stem;
    if |x| == |arg| || arg[|x|] == '=' { StemBefore(x, arg); }
  }

  // ----- a value that outlives its argument

  /** An entry that stands for itself, reached past a candidate that has taken the text after `=` for its value. */
  predicate Leaky(table: seq<Opt>, i: nat)
    requires i < |table|
  {
    && table[i].kind.Argument? && table[i].longName.Some?
    && (forall k :: 0 <= k < i ==> !Stops(table[k], table[i].longName.value))
    && LeavesValue(table[..i], table[i].longName.value) && !Plain(table[i].longName.value)
  }

  lemma {:induction false} PlainHasNoValue(arg: string)
    ensures ValuePart(arg) == None <==> Plain(arg)
  {
    if arg != [] && arg[0] != '=' {
      PlainHasNoValue(arg[1..]);
      assert arg == [arg[0]] + arg[1..];
    }
  }

  /** Some argument leaves a value to the next one exactly when the table has such an entry. */
  lemma LeaksExactly(table: seq<Opt>)
    ensures (exists arg :: Resolve(table, arg, None).KeepArgument? && Resolve(table, arg, None).left.Some?) <==>
            exists i :: 0 <= i < |table| && Leaky(table, i)
  {
    hide MatchOf, Candidates, ValuePart;
    forall arg | Resolve(table, arg, None).KeepArgument? && Resolve(table, arg, None).left.Some?
      ensures exists i :: 0 <= i < |table| && Leaky(table, i)
    {
      var i := FirstStop(table, arg);
      NoStopBefore(table, arg);
      assert table[i].longName.value == arg;
      PlainHasNoValue(arg);
      assert Leaky(table, i);
    }
    forall i | 0 <= i < |table| && Leaky(table, i)
      ensures exists arg :: Resolve(table, arg, None).KeepArgument? && Resolve(table, arg, None).left.Some?
    {
      var arg := table[i].longName.value;
      PlainHasNoValue(arg);
      FirstStopIs(table, arg, i);
      assert Resolve(table, arg, None).KeepArgument? && Resolve(table, arg, None).left.Some?;
    }
  }

  lemma {:induction false} NoStopBefore(table: seq<Opt>, arg: string)
    ensures forall k :: 0 <= k < FirstStop(table, arg) ==> !Stops(table[k], arg)
  {
    hide Stops;
    if table != [] && !Stops(table[0], arg) {
      NoStopBefore(table[1..], arg);
      forall k | 0 < k < FirstStop(table, arg) ensures !Stops(table[k], arg) { assert table[k] == table[1..][k - 1]; }
    }
  }

  /** With names without `=` an argument passes on what it was left and no more. */
  lemma PlainNeverLeaks(table: seq<Opt>, arg: string, left: Option<string>)
    requires PlainNames(table) && Resolve(table, arg, left).KeepArgument?
    ensures Resolve(table, arg, left).left == left
  {
    hide MatchOf, Candidates, ValuePart;
    PlainHasNoValue(arg);
  }

  /**
   Prefixing `no-` negates an option exactly when its name is not a beginning of `no`: for the names
   `n` and `no` the name itself is found at the start of the argument, which then fails to match.
   */
  lemma NegationRecognised(name: string)
    requires !("no-" <= name)
    ensures Classify(name, "no-" + name) == Exact(true, None) <==> name != "" && name != "n" && name != "no"
  {
    var arg := "no-" + name;
    assert arg[3..] == name;
    StemOfNegated(name);
    BeginningOfNegated(name);
    if name <= arg {
      assert arg[|name|..] != [] && arg[|name|] in {'n', 'o', '-'};
    }
  }

  lemma BeginningOfNegated(name: string)
    requires !("no-" <= name)
    ensures name <= "no-" + name <==> name == "" || name == "n" || name == "no"
  {
    var arg := "no-" + name;
    if name <= arg {
      assert forall i :: 0 <= i < |name| ==> name[i] == arg[i];
    }
  }

  lemma StemOfNegated(name: string)
    ensures "no-" <= Stem("no-" + name)
  {
    var arg := "no-" + name;
    assert arg[1..][1..][1..] == name;
    assert Stem(arg) == ['n'] + Stem(arg[1..]);
    assert Stem(arg[1..]) == ['o'] + Stem(arg[1..][1..]);
    assert Stem(arg[1..][1..]) == ['-'] + Stem(arg[1..][1..][1..]);
  }

  /** `--no-n` and `--no-no` match the options named `n` and `no` in no way at all. */
  lemma NegationMissed()
    ensures Classify("n", "no-n") == NoMatch && Classify("no", "no-no") == NoMatch
  {
    assert "no-n"[1..] == "o-n" && "no-no"[2..] == "-no";
  }
}
