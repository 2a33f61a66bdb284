/** What the dispatch loop of `HandleArguments` computes, for any registry whose
    keys are distinct, stated against a reference: the list of handler runs it
    should make, in registry order. */
module DispatchProperties {
  import opened Wrappers
  import opened Text
  import opened Commands
  import opened ArgumentsHandler
  import Parsed

  /** One handler run: the command's key and what its handler reported. */
  datatype Invocation = Invocation(key: string, outcome: HandlerResult)

  /** Reference: every command one of whose aliases occurs among the arguments,
      in registry order, each with the outcome of its handler. */
  function Invocations(version: string, args: seq<string>, cmds: seq<Command>): seq<Invocation>
    decreases |cmds|
  {
    if cmds == [] then []
    else
      (if Matches(cmds[0], args) then [Invocation(cmds[0].key, RunHandler(cmds[0].handler, version, args))] else [])
      + Invocations(version, args, cmds[1..])
  }

  function Keys(invs: seq<Invocation>): seq<string> {
    if invs == [] then [] else [invs[0].key] + Keys(invs[1..])
  }

  predicate AllOk(invs: seq<Invocation>) {
    forall i :: 0 <= i < |invs| ==> invs[i].outcome.ok
  }

  /** The log entries of the failed runs, in order. */
  function FailureLog(invs: seq<Invocation>): seq<string> {
    if invs == [] then [] else FailureEntry(invs[0].outcome) + FailureLog(invs[1..])
  }

  /** The record after every run's values were written in, in order. */
  function ApplyAll(invs: seq<Invocation>, p: Parsed.ParsedArguments): Parsed.ParsedArguments {
    if invs == [] then p else ApplyAll(invs[1..], Apply(invs[0].outcome, p))
  }

  /** The value a handler reported for property `f`; handlers report only the
      input path, the file type and the output directory. */
  function ReportedValue(o: HandlerResult, f: Parsed.Field): Option<string> {
    match f
    case InputFilePath => o.inputFilePath
    case FileType => o.fileType
    case OutputDir => o.outputDir
    case _ => None
  }

  /** The values the runs reported for property `f`, in order. */
  function Reported(invs: seq<Invocation>, f: Parsed.Field): (vs: seq<Option<string>>)
    ensures |vs| == |invs|
  {
    seq(|invs|, i requires 0 <= i < |invs| => ReportedValue(invs[i].outcome, f))
  }

  /** Position `i` holds the last value of `vs` that is neither null nor blank. */
  predicate IsLastNonBlank(vs: seq<Option<string>>, i: int) {
    && 0 <= i < |vs| && !IsNullOrWhiteSpace(vs[i])
    && forall j :: i < j < |vs| ==> IsNullOrWhiteSpace(vs[j])
  }

  /** Reference for the write-back rule: the last value of `vs` that is neither
      null nor blank, or `init` when there is none. */
  function LastNonBlank(vs: seq<Option<string>>, init: Option<string>): (r: Option<string>)
    ensures || (exists i :: IsLastNonBlank(vs, i) && r == vs[i])
            || (r == init && forall i :: 0 <= i < |vs| ==> IsNullOrWhiteSpace(vs[i]))
    decreases |vs|
  {
    if vs == [] then init
    else if !IsNullOrWhiteSpace(vs[|vs| - 1]) then
      assert IsLastNonBlank(vs, |vs| - 1);
      vs[|vs| - 1]
    else
      var front := vs[..|vs| - 1];
      assert forall i :: 0 <= i < |front| ==> front[i] == vs[i];
      assert forall i :: IsLastNonBlank(front, i) ==> IsLastNonBlank(vs, i);
      LastNonBlank(front, init)
  }

  /** One handler result changes property `f` exactly when it reported a value
      that is neither null nor blank, and then to that value. */
  lemma ApplyField(o: HandlerResult, p: Parsed.ParsedArguments, f: Parsed.Field)
    ensures Parsed.Get(Apply(o, p), f)
         == if IsNullOrWhiteSpace(ReportedValue(o, f)) then Parsed.Get(p, f) else ReportedValue(o, f)
  {
  }

  lemma ApplyAllOne(inv: Invocation, p: Parsed.ParsedArguments)
    ensures ApplyAll([inv], p) == Apply(inv.outcome, p)
  {
    assert [inv][1..] == [];
  }

  /** After the runs, each property holds the last value any run reported for
      it that is neither null nor blank, whether or not that run succeeded;
      without one it keeps its value. */
  lemma {:induction false} ApplyAllIsLastNonBlank(invs: seq<Invocation>, p: Parsed.ParsedArguments, f: Parsed.Field)
    ensures Parsed.Get(ApplyAll(invs, p), f) == LastNonBlank(Reported(invs, f), Parsed.Get(p, f))
    decreases |invs|
  {
    if invs != [] {
      var front := invs[..|invs| - 1];
      var last := invs[|invs| - 1];
      assert invs == front + [last];
      ApplyAllAppend(front, [last], p);
      ApplyAllOne(last, ApplyAll(front, p));
      ApplyField(last.outcome, ApplyAll(front, p), f);
      ApplyAllIsLastNonBlank(front, p, f);
      assert Reported(invs, f)[..|invs| - 1] == Reported(front, f);
    }
  }

  /** Some trimmed alias piece occurs among the arguments. */
  predicate AnyIn(parts: seq<string>, args: seq<string>) {
    exists k :: 0 <= k < |parts| && Trim(parts[k]) in args
  }

  lemma MatchesIsAnyIn(c: Command, args: seq<string>)
    ensures Matches(c, args) <==> AnyIn(Split(c.aliases, AliasSeparator), args)
  {
    var parts := Split(c.aliases, AliasSeparator);
    var tokens := AliasTokens(c.aliases);
    assert forall k :: 0 <= k < |parts| ==> tokens[k] == Trim(parts[k]);
  }

  lemma AnyInTail(parts: seq<string>, args: seq<string>)
    requires parts != [] && Trim(parts[0]) !in args
    ensures AnyIn(parts, args) <==> AnyIn(parts[1..], args)
  {
    if AnyIn(parts, args) {
      var k :| 0 <= k < |parts| && Trim(parts[k]) in args;
      assert k != 0;
      assert parts[1..][k - 1] == parts[k];
    }
    if AnyIn(parts[1..], args) {
      var k :| 0 <= k < |parts[1..]| && Trim(parts[1..][k]) in args;
      assert parts[k + 1] == parts[1..][k];
    }
  }

  /** The alias loop of one command runs its handler once if any alias occurs
      and the key was not yet invoked, and otherwise changes nothing. */
  lemma {:induction false} RunAliasesEffect(version: string, args: seq<string>, c: Command, parts: seq<string>, s: State)
    ensures c.key in s.invoked ==> RunAliases(version, args, c, parts, s) == s
    ensures c.key !in s.invoked ==>
      RunAliases(version, args, c, parts, s) == if AnyIn(parts, args) then Invoke(version, args, c, s) else s
    decreases |parts|
  {
    if parts != [] {
      var found := IndexOf(args, Trim(parts[0])) != -1;
      var s' := if found && c.key !in s.invoked then Invoke(version, args, c, s) else s;
      RunAliasesEffect(version, args, c, parts[1..], s');
      if found && c.key !in s.invoked {
        assert c.key in s'.invoked;
        assert AnyIn(parts, args);
      } else if c.key !in s.invoked {
        AnyInTail(parts, args);
      }
    }
  }

  /** The run a single command contributes to the reference: one if it matched, none otherwise. */
  function Head(version: string, args: seq<string>, c: Command): seq<Invocation> {
    if Matches(c, args) then [Invocation(c.key, RunHandler(c.handler, version, args))] else []
  }

  lemma InvocationsCons(version: string, args: seq<string>, cmds: seq<Command>)
    requires cmds != []
    ensures Invocations(version, args, cmds) == Head(version, args, cmds[0]) + Invocations(version, args, cmds[1..])
  {
  }

  /** One command's alias loop, on a key not yet invoked, runs the handler
      exactly when the command matches. */
  lemma StepIsInvokeIfMatched(version: string, args: seq<string>, c: Command, s: State)
    requires c.key !in s.invoked
    ensures RunAliases(version, args, c, Split(c.aliases, AliasSeparator), s)
         == if Matches(c, args) then Invoke(version, args, c, s) else s
  {
    RunAliasesEffect(version, args, c, Split(c.aliases, AliasSeparator), s);
    MatchesIsAnyIn(c, args);
  }

  /** Running one handler folds in exactly one run. */
  lemma InvokeSummary(version: string, args: seq<string>, c: Command, s: State)
    ensures var r := Invoke(version, args, c, s);
            var head := [Invocation(c.key, RunHandler(c.handler, version, args))];
      && r.invoked == s.invoked + Keys(head)
      && (r.success <==> s.success && AllOk(head))
      && r.log == s.log + FailureLog(head)
      && r.parsed == ApplyAll(head, s.parsed)
  {
    var head := [Invocation(c.key, RunHandler(c.handler, version, args))];
    assert head[1..] == [];
    assert Keys(head) == [c.key];
    assert FailureLog(head) == FailureEntry(head[0].outcome) + [];
    assert ApplyAll(head, s.parsed) == Apply(head[0].outcome, s.parsed);
  }

  /** One command's alias loop, on a key not yet invoked, folds in exactly the
      runs of `Head`. */
  lemma StepSummary(version: string, args: seq<string>, c: Command, s: State)
    requires c.key !in s.invoked
    ensures Summarises(s, RunAliases(version, args, c, Split(c.aliases, AliasSeparator), s), Head(version, args, c))
    ensures Keys(Head(version, args, c)) == [] || Keys(Head(version, args, c)) == [c.key]
  {
    StepIsInvokeIfMatched(version, args, c, s);
    if Matches(c, args) {
      InvokeSummary(version, args, c, s);
      assert Head(version, args, c) == [Invocation(c.key, RunHandler(c.handler, version, args))];
    } else {
      assert Head(version, args, c) == [];
      assert s.log + [] == s.log && s.invoked + [] == s.invoked;
    }
  }

  /** The dispatch loop makes exactly the reference's runs, in the reference's
      order: it records their keys, fails exactly when one of them failed
      (without stopping at the first), logs each failure's message in order, and
      writes their values into the record in order. */
  lemma {:induction false} DispatchSummary(version: string, args: seq<string>, cmds: seq<Command>, s: State)
    requires DistinctKeys(cmds)
    requires forall i :: 0 <= i < |cmds| ==> cmds[i].key !in s.invoked
    ensures Summarises(s, DispatchAll(version, args, cmds, s), Invocations(version, args, cmds))
    decreases |cmds|
  {
    if cmds != [] {
      var c := cmds[0];
      var head := Head(version, args, c);
      var rest := Invocations(version, args, cmds[1..]);
      StepSummary(version, args, c, s);
      var s1 := RunAliases(version, args, c, Split(c.aliases, AliasSeparator), s);
      FreshAfterStep(cmds, s.invoked, s1.invoked);
      DispatchSummary(version, args, cmds[1..], s1);
      DispatchAllCons(version, args, cmds, s);
      InvocationsCons(version, args, cmds);
      SummariesCompose(s, s1, DispatchAll(version, args, cmds[1..], s1), head, rest);
    }
  }

  /** After the first command's step, the remaining keys are still fresh. */
  lemma FreshAfterStep(cmds: seq<Command>, before: seq<string>, after: seq<string>)
    requires cmds != [] && DistinctKeys(cmds)
    requires forall i :: 0 <= i < |cmds| ==> cmds[i].key !in before
    requires after == before || after == before + [cmds[0].key]
    ensures forall i :: 0 <= i < |cmds[1..]| ==> cmds[1..][i].key !in after
  {
    forall i | 0 <= i < |cmds[1..]|
      ensures cmds[1..][i].key !in after
    {
      assert cmds[1..][i] == cmds[i + 1];
      assert cmds[i + 1].key != cmds[0].key;
    }
  }

  lemma DispatchAllCons(version: string, args: seq<string>, cmds: seq<Command>, s: State)
    requires cmds != []
    ensures DispatchAll(version, args, cmds, s)
         == DispatchAll(version, args, cmds[1..], RunAliases(version, args, cmds[0], Split(cmds[0].aliases, AliasSeparator), s))
  {
  }

  /** `r` is `s` with the runs `invs` folded in: their keys recorded, success
      kept only if all of them succeeded, their failures logged and their values
      written into the record, all in order. */
  predicate Summarises(s: State, r: State, invs: seq<Invocation>) {
    && r.invoked == s.invoked + Keys(invs)
    && (r.success <==> s.success && AllOk(invs))
    && r.log == s.log + FailureLog(invs)
    && r.parsed == ApplyAll(invs, s.parsed)
  }

  /** Folding in `head` and then `rest` is folding in `head + rest`. */
  lemma SummariesCompose(s: State, s1: State, r: State, head: seq<Invocation>, rest: seq<Invocation>)
    requires Summarises(s, s1, head) && Summarises(s1, r, rest)
    ensures Summarises(s, r, head + rest)
  {
    KeysAppend(head, rest);
    assert r.invoked == s.invoked + Keys(head + rest) by {
      assert s.invoked + Keys(head) + Keys(rest) == s.invoked + (Keys(head) + Keys(rest));
    }
    FailureLogAppend(head, rest);
    assert r.log == s.log + FailureLog(head + rest) by {
      assert s.log + FailureLog(head) + FailureLog(rest) == s.log + (FailureLog(head) + FailureLog(rest));
    }
    ApplyAllAppend(head, rest, s.parsed);
    AllOkAppend(head, rest);
  }

  /** A key is recorded exactly when its command has an alias among the arguments. */
  lemma {:induction false} KeyRecorded(version: string, args: seq<string>, cmds: seq<Command>, k: string)
    ensures k in Keys(Invocations(version, args, cmds)) <==>
      exists i :: 0 <= i < |cmds| && cmds[i].key == k && Matches(cmds[i], args)
    decreases |cmds|
  {
    if cmds != [] {
      KeyRecorded(version, args, cmds[1..], k);
      var head := Head(version, args, cmds[0]);
      var rest := Invocations(version, args, cmds[1..]);
      InvocationsCons(version, args, cmds);
      KeysAppend(head, rest);
      if Matches(cmds[0], args) {
        assert head[1..] == [];
        assert Keys(head) == [cmds[0].key];
      }
      if exists i :: 0 <= i < |cmds| && cmds[i].key == k && Matches(cmds[i], args) {
        var i :| 0 <= i < |cmds| && cmds[i].key == k && Matches(cmds[i], args);
        if i > 0 {
          assert cmds[1..][i - 1] == cmds[i];
        }
      }
      if exists i :: 0 <= i < |cmds[1..]| && cmds[1..][i].key == k && Matches(cmds[1..][i], args) {
        var i :| 0 <= i < |cmds[1..]| && cmds[1..][i].key == k && Matches(cmds[1..][i], args);
        assert cmds[i + 1] == cmds[1..][i];
      }
    }
  }

  /** With distinct keys, no key is recorded twice: each handler runs at most once. */
  lemma {:induction false} KeysAreDistinct(version: string, args: seq<string>, cmds: seq<Command>)
    requires DistinctKeys(cmds)
    ensures NoDuplicates(Keys(Invocations(version, args, cmds)))
    decreases |cmds|
  {
    if cmds != [] {
      KeysAreDistinct(version, args, cmds[1..]);
      var head := Head(version, args, cmds[0]);
      var rest := Invocations(version, args, cmds[1..]);
      InvocationsCons(version, args, cmds);
      KeysAppend(head, rest);
      if Matches(cmds[0], args) {
        assert head[1..] == [];
        assert Keys(head) == [cmds[0].key];
        KeyRecorded(version, args, cmds[1..], cmds[0].key);
        NoDuplicatesCons(cmds[0].key, Keys(rest));
      } else {
        assert Keys(head) + Keys(rest) == Keys(rest);
      }
    }
  }

  lemma NoDuplicatesCons(x: string, xs: seq<string>)
    requires x !in xs && NoDuplicates(xs)
    ensures NoDuplicates([x] + xs)
  {
    var ys := [x] + xs;
    forall i, j | 0 <= i < j < |ys|
      ensures ys[i] != ys[j]
    {
      assert ys[j] == xs[j - 1];
      if i > 0 {
        assert ys[i] == xs[i - 1];
      }
    }
  }

  lemma {:induction false} KeysAppend(a: seq<Invocation>, b: seq<Invocation>)
    ensures Keys(a + b) == Keys(a) + Keys(b)
    decreases |a|
  {
    if a != [] {
      assert (a + b)[1..] == a[1..] + b;
      KeysAppend(a[1..], b);
    } else {
      assert a + b == b;
    }
  }

  lemma {:induction false} FailureLogAppend(a: seq<Invocation>, b: seq<Invocation>)
    ensures FailureLog(a + b) == FailureLog(a) + FailureLog(b)
    decreases |a|
  {
    if a != [] {
      assert (a + b)[1..] == a[1..] + b;
      FailureLogAppend(a[1..], b);
    } else {
      assert a + b == b;
    }
  }

  lemma {:induction false} ApplyAllAppend(a: seq<Invocation>, b: seq<Invocation>, p: Parsed.ParsedArguments)
    ensures ApplyAll(a + b, p) == ApplyAll(b, ApplyAll(a, p))
    decreases |a|
  {
    if a != [] {
      assert (a + b)[1..] == a[1..] + b;
      ApplyAllAppend(a[1..], b, Apply(a[0].outcome, p));
    } else {
      assert a + b == b;
    }
  }

  lemma AllOkAppend(a: seq<Invocation>, b: seq<Invocation>)
    ensures AllOk(a + b) <==> AllOk(a) && AllOk(b)
  {
    if AllOk(a + b) {
      forall i | 0 <= i < |a|
        ensures a[i].outcome.ok
      {
        assert a[i] == (a + b)[i];
      }
      forall i | 0 <= i < |b|
        ensures b[i].outcome.ok
      {
        assert b[i] == (a + b)[|a| + i];
      }
    }
    if AllOk(a) && AllOk(b) {
      forall i | 0 <= i < |a + b|
        ensures (a + b)[i].outcome.ok
      {
        if i < |a| {
          assert (a + b)[i] == a[i];
        } else {
          assert (a + b)[i] == b[i - |a|];
        }
      }
    }
  }
}
