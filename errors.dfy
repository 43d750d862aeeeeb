/**
 * Error values of the service manager (errors.go) and the text their
 * `Error` methods build.  Each Go `Error` method appends to a
 * `strings.Builder` in a loop and cuts the trailing separator; here the
 * methods keep that loop and are proved equal to a `Join` of the entries.
 * Go map iteration order is arbitrary, so every rendering takes the order in
 * which the keys are visited as a parameter.
 */
module Errors {
  import opened Wrappers
  import opened Reflect

  /** Every error value the core produces or passes through. */
  datatype Error =
    | Failure(code: int)                  // an error returned by a service's Start or Close
    | Canceled                            // context.Canceled, what ctx.Err() returns once cancelled
    | NotInterfacePointer                 // "given interfaces must be pointers to interfaces"
    | StartResultNotError                 // "expected Start to return an error"
    | StartWithoutContext                 // "expected first argument of Start to be a context"
    | DependencyNotInterface(param: Type) // "service dependency not an interface: %s"
    | BadCloseSignature(sig: Signature)   // "expected Close method to have the signature 'func() error' ..."
    | DuplicateService(given: Inst, bound: Inst, iface: Iface)
    | MissingDependency(dependent: Inst, iface: Iface)
    | Cycle(blocked: map<Inst, seq<Inst>>)          // ErrCycle
    | Service(errs: map<Inst, Option<Error>>)        // ErrService (a nil error can be stored)
    | Manage(start: Option<Error>, stop: Option<Error>) // ErrManage

  /** `order` visits every key of `keys` exactly once: one Go map iteration order. */
  predicate Enumerates<K>(order: seq<K>, keys: set<K>)
  {
    && (forall i, j :: 0 <= i < j < |order| ==> order[i] != order[j])
    && (forall i :: 0 <= i < |order| ==> order[i] in keys)
    && (forall k :: k in keys ==> k in order)
  }

  /** The strings separated by `sep`. */
  function Join(xs: seq<string>, sep: string): string
  {
    if |xs| == 0 then ""
    else if |xs| == 1 then xs[0]
    else Join(xs[..|xs| - 1], sep) + sep + xs[|xs| - 1]
  }

  /** Every string followed by `sep`: what a builder loop writes before the tail is cut. */
  function Terminated(xs: seq<string>, sep: string): string
  {
    if xs == [] then "" else Terminated(xs[..|xs| - 1], sep) + xs[|xs| - 1] + sep
  }

  lemma {:induction false} TerminatedIsJoin(xs: seq<string>, sep: string)
    requires |xs| > 0
    ensures Terminated(xs, sep) == Join(xs, sep) + sep
  {
    if |xs| == 1 {
      assert xs[..0] == [];
    } else {
      TerminatedIsJoin(xs[..|xs| - 1], sep);
    }
  }

  /** Writing all elements but the last with separators, then the last one alone, gives the join. */
  lemma TerminatedThenLast(xs: seq<string>, sep: string)
    requires |xs| > 0
    ensures Terminated(xs[..|xs| - 1], sep) + xs[|xs| - 1] == Join(xs, sep)
  {
    if |xs| == 1 {
      assert xs[..0] == [];
    } else {
      TerminatedIsJoin(xs[..|xs| - 1], sep);
    }
  }

  lemma TerminatedSnoc(xs: seq<string>, i: nat, sep: string)
    requires i < |xs|
    ensures Terminated(xs[..i + 1], sep) == Terminated(xs[..i], sep) + xs[i] + sep
  {
    assert xs[..i + 1][..i] == xs[..i];
  }

  lemma ExtendTerminated(prefix: string, xs: seq<string>, i: nat, sep: string)
    requires i < |xs|
    ensures prefix + Terminated(xs[..i + 1], sep) == prefix + Terminated(xs[..i], sep) + xs[i] + sep
  {
    TerminatedSnoc(xs, i, sep);
  }

  /** Cutting the last separator off a terminated list leaves the join. */
  lemma CutSeparator(prefix: string, xs: seq<string>, sep: string)
    requires |xs| > 0
    ensures var b := prefix + Terminated(xs, sep);
      |b| >= |sep| && b[..|b| - |sep|] == prefix + Join(xs, sep)
  {
    TerminatedIsJoin(xs, sep);
    var j := prefix + Join(xs, sep);
    assert prefix + Terminated(xs, sep) == j + sep;
    assert (j + sep)[..|j|] == j;
  }

  /** A non-empty join ends with its last element. */
  lemma {:induction false} JoinEndsWithLast(xs: seq<string>, sep: string)
    requires |xs| > 0
    ensures |Join(xs, sep)| >= |xs[|xs| - 1]|
    ensures Join(xs, sep)[|Join(xs, sep)| - |xs[|xs| - 1]|..] == xs[|xs| - 1]
  {
    var j := Join(xs, sep);
    var last := xs[|xs| - 1];
    if |xs| > 1 {
      var front := Join(xs[..|xs| - 1], sep) + sep;
      assert j == front + last;
      assert j[|front|..] == last;
    }
  }

  /** The `%T` names of a list of instances. */
  function Names(c: seq<Inst>): (r: seq<string>)
    ensures |r| == |c|
    ensures forall k :: 0 <= k < |c| ==> r[k] == c[k].typeName
  {
    seq(|c|, k requires 0 <= k < |c| => c[k].typeName)
  }

  // ---------------------------------------------------------------- ErrCycle

  const CyclePrefix: string := "dependency cycle: "

  /** What `ErrCycle.Error` needs not to panic: a non-empty map of non-empty lists. */
  predicate CycleRenderable(blocked: map<Inst, seq<Inst>>)
  {
    |blocked| > 0 && forall p :: p in blocked ==> |blocked[p]| > 0
  }

  /** One blocked service: `T -> {D1, D2, ...}`. */
  function CycleEntry(p: Inst, c: seq<Inst>): string
  {
    p.typeName + " -> {" + Join(Names(c), ", ") + "}"
  }

  function CycleEntries(blocked: map<Inst, seq<Inst>>, order: seq<Inst>): (r: seq<string>)
    requires forall k :: k in order ==> k in blocked
    ensures |r| == |order|
    ensures forall k :: 0 <= k < |order| ==> r[k] == CycleEntry(order[k], blocked[order[k]])
  {
    seq(|order|, k requires 0 <= k < |order| => CycleEntry(order[k], blocked[order[k]]))
  }

  /** The text of `ErrCycle.Error` when the map is visited in `order`. */
  function CycleText(blocked: map<Inst, seq<Inst>>, order: seq<Inst>): string
    requires Enumerates(order, blocked.Keys)
  {
    CyclePrefix + Join(CycleEntries(blocked, order), "; ")
  }

  /** One `%T -> {...}; ` entry of ErrCycle.Error, without its "; ": the inner builder loop. */
  method EntryMessage(p: Inst, c: seq<Inst>) returns (line: string)
    requires |c| > 0
    ensures line == CycleEntry(p, c)
  {
    var names := Names(c);
    line := p.typeName + " -> {";
    var j := 0;
    while j < |c| - 1
      invariant 0 <= j <= |c| - 1
      invariant line == p.typeName + " -> {" + Terminated(names[..j], ", ")
    {
      TerminatedSnoc(names, j, ", ");
      line := line + c[j].typeName + ", ";
      j := j + 1;
    }
    TerminatedThenLast(names, ", ");
    line := line + c[|c| - 1].typeName + "}";
  }

  /** The outcome of an `Error` method: its text, or the panic it raises. */
  datatype Rendering = Rendered(text: string) | RenderPanic(reason: string)

  /**
   * ErrCycle.Error: panics on an empty map, and on an empty list when the
   * loop reaches it (`c[:len(c)-1]`); otherwise the builder loops, then the
   * final "; " is cut off.
   */
  method CycleMessage(blocked: map<Inst, seq<Inst>>, order: seq<Inst>) returns (r: Rendering)
    requires Enumerates(order, blocked.Keys)
    ensures r.Rendered? <==> CycleRenderable(blocked)
    ensures r.Rendered? ==> r.text == CycleText(blocked, order)
  {
    if |blocked| == 0 {
      return RenderPanic("bad cycle error");
    }
    var entries := CycleEntries(blocked, order);
    var prefix := CyclePrefix;
    var b := prefix;
    var i := 0;
    while i < |order|
      invariant 0 <= i <= |order|
      invariant b == prefix + Terminated(entries[..i], "; ")
      invariant forall j :: 0 <= j < i ==> |blocked[order[j]]| > 0
    {
      assert order[i] in blocked;
      if |blocked[order[i]]| == 0 {
        return RenderPanic("slice bounds out of range");
      }
      var line := EntryMessage(order[i], blocked[order[i]]);
      assert line == entries[i];
      ExtendTerminated(prefix, entries, i, "; ");
      b := b + line + "; ";
      i := i + 1;
    }
    ListedNonEmpty(blocked, order);
    assert entries[..|order|] == entries;
    CutSeparator(prefix, entries, "; ");
    r := Rendered(b[..|b| - 2]);
  }

  /** A non-empty map whose visited lists are all non-empty is renderable, and its order is not empty. */
  lemma ListedNonEmpty(blocked: map<Inst, seq<Inst>>, order: seq<Inst>)
    requires Enumerates(order, blocked.Keys) && |blocked| > 0
    requires forall j :: 0 <= j < |order| ==> |blocked[order[j]]| > 0
    ensures CycleRenderable(blocked) && |order| > 0
  {
    forall p | p in blocked ensures |blocked[p]| > 0 {
      var j :| 0 <= j < |order| && order[j] == p;
    }
    EnumeratesNonEmpty(order, blocked.Keys);
  }

  /** An order that visits a non-empty set of keys is not empty. */
  lemma EnumeratesNonEmpty<K>(order: seq<K>, keys: set<K>)
    requires Enumerates(order, keys) && keys != {}
    ensures |order| > 0
  {
    var p :| p in keys;
    assert p in order;
  }

  /** Whatever the iteration order, the text starts with the prefix and ends with the last `}`. */
  lemma CycleTextShape(blocked: map<Inst, seq<Inst>>, order: seq<Inst>)
    requires CycleRenderable(blocked)
    requires Enumerates(order, blocked.Keys)
    ensures var t := CycleText(blocked, order);
      |t| > |CyclePrefix| && t[..|CyclePrefix|] == CyclePrefix && t[|t| - 1] == '}'
  {
    var entries := CycleEntries(blocked, order);
    assert |order| > 0 by {
      var p :| p in blocked;
      assert p in order;
    }
    var last := entries[|entries| - 1];
    JoinEndsWithLast(entries, "; ");
    var j := Join(entries, "; ");
    assert last[|last| - 1] == '}';
    assert j[|j| - 1] == last[|last| - 1];
  }

  // -------------------------------------------------------------- ErrService

  function ServiceEntries(errs: map<Inst, Option<Error>>, order: seq<Inst>, show: Option<Error> -> string): (r: seq<string>)
    requires forall k :: k in order ==> k in errs
    ensures |r| == |order|
    ensures forall k :: 0 <= k < |order| ==> r[k] == order[k].typeName + ": " + show(errs[order[k]])
  {
    seq(|order|, k requires 0 <= k < |order| => order[k].typeName + ": " + show(errs[order[k]]))
  }

  /** The text of `ErrService.Error`; `show` stands for the `%s` rendering of one error value. */
  function ServiceText(errs: map<Inst, Option<Error>>, order: seq<Inst>, show: Option<Error> -> string): string
    requires Enumerates(order, errs.Keys)
  {
    Join(ServiceEntries(errs, order, show), "; ")
  }

  /** ErrService.Error: panics on an empty map, otherwise `T: err` entries joined by "; ". */
  method ServiceMessage(errs: map<Inst, Option<Error>>, order: seq<Inst>, show: Option<Error> -> string) returns (r: Rendering)
    requires Enumerates(order, errs.Keys)
    ensures r.Rendered? <==> |errs| > 0
    ensures r.Rendered? ==> r.text == ServiceText(errs, order, show) && |r.text| > 0
  {
    if |errs| == 0 {
      return RenderPanic("bad service error");
    }
    var b := ServiceLines(errs, order, show);
    EnumeratesNonEmpty(order, errs.Keys);
    var entries := ServiceEntries(errs, order, show);
    assert |entries[|entries| - 1]| >= 2;
    JoinedEntries(entries);
    r := Rendered(b[..|b| - 2]);
  }

  /** The builder loop of ErrService.Error: every `T: err` entry followed by "; ". */
  method ServiceLines(errs: map<Inst, Option<Error>>, order: seq<Inst>, show: Option<Error> -> string) returns (b: string)
    requires forall k :: k in order ==> k in errs
    ensures b == Terminated(ServiceEntries(errs, order, show), "; ")
  {
    var entries := ServiceEntries(errs, order, show);
    b := "";
    var i := 0;
    while i < |order|
      invariant 0 <= i <= |order|
      invariant b == Terminated(entries[..i], "; ")
    {
      TerminatedSnoc(entries, i, "; ");
      b := b + order[i].typeName + ": " + show(errs[order[i]]) + "; ";
      i := i + 1;
    }
    assert entries[..i] == entries;
  }

  /** Cutting the final "; " off entries of at least two characters each leaves their non-empty join. */
  lemma JoinedEntries(entries: seq<string>)
    requires |entries| > 0 && |entries[|entries| - 1]| >= 2
    ensures var b := Terminated(entries, "; ");
      |b| >= 2 && b[..|b| - 2] == Join(entries, "; ") && |Join(entries, "; ")| > 0
  {
    CutSeparator("", entries, "; ");
    assert "" + Terminated(entries, "; ") == Terminated(entries, "; ");
    assert "" + Join(entries, "; ") == Join(entries, "; ");
    JoinEndsWithLast(entries, "; ");
  }

  // --------------------------------------------------------------- ErrManage

  const StartingLabel: string := "errors when starting: "
  const StoppingLabel: string := "errors when stopping: "

  /**
   * ErrManage.Error: a "starting" line carrying the start error exactly
   * when Start is set, then a "stopping" line carrying the stop error
   * exactly when Stop is set, and nothing else; empty when both are nil.  `show` stands for the `%s` rendering of the inner error.
   */
  function ManageText(start: Option<Error>, stop: Option<Error>, show: Error -> string): (r: string)
    ensures r == "" <==> start.None? && stop.None?
    ensures start.Some? <==> |r| >= |StartingLabel| && r[..|StartingLabel|] == StartingLabel
    ensures start.Some? ==>
      var line := StartingLabel + show(start.value) + "\n";
      |r| >= |line| && r[..|line|] == line
    ensures stop.Some? ==>
      var line := StoppingLabel + show(stop.value) + "\n";
      |r| >= |line| && r[|r| - |line|..] == line
    ensures start.None? && stop.Some? ==> r[..|StoppingLabel|] == StoppingLabel
    ensures |r| == (if start.Some? then |StartingLabel| + |show(start.value)| + 1 else 0)
                 + (if stop.Some? then |StoppingLabel| + |show(stop.value)| + 1 else 0)
  {
    var first := if start.Some? then StartingLabel + show(start.value) + "\n" else "";
    var second := if stop.Some? then StoppingLabel + show(stop.value) + "\n" else "";
    if start.None? && stop.Some? then
      assert (first + second)[..|StartingLabel|][14] != StartingLabel[14];
      first + second
    else
      assert start.Some? ==> (first + second)[..|StartingLabel|] == first[..|StartingLabel|];
      first + second
  }
}
