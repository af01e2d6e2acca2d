/**
 The tree of diagnostic messages and its iterative traversal
 (src/diag/diagnostics.cpp, src/diag/processor.cpp).
 */
module Diagnostics {

  datatype Severity = NOTE | WARN | ERROR | BEGIN | END

  datatype Entry = Entry(lvl: Severity, msg: string, more: seq<Entry>)

  /** What a list of messages amounts to, in the order in which it is shown. */
  datatype Event = Begin(msg: string) | End | Leaf(lvl: Severity, msg: string)

  // ---------------------------------------------------------------------------
  // The tree and its open path
  // ---------------------------------------------------------------------------

  /** depth steps into the last child lead somewhere: the open groups. */
  predicate HasPath(more: seq<Entry>, depth: nat) {
    depth == 0 || (more != [] && HasPath(more[|more| - 1].more, depth - 1))
  }

  /** The innermost open group gets one more child. */
  function AppendAt(more: seq<Entry>, depth: nat, child: Entry): seq<Entry>
    requires HasPath(more, depth)
  {
    if depth == 0 then more + [child]
    else
      var n := |more| - 1;
      more[..n] + [more[n].(more := AppendAt(more[n].more, depth - 1, child))]
  }

  /** The innermost open group is closed, and removed when it is empty. */
  function CloseAt(more: seq<Entry>, depth: nat): seq<Entry>
    requires depth > 0 && HasPath(more, depth)
  {
    var n := |more| - 1;
    if depth == 1 then if more[n].more == [] then more[..n] else more
    else more[..n] + [more[n].(more := CloseAt(more[n].more, depth - 1))]
  }

  // ---------------------------------------------------------------------------
  // The tree as a sequence of events
  // ---------------------------------------------------------------------------

  /** An entry with nested ones is a group, whatever its severity. */
  function EventsOf(more: seq<Entry>): seq<Event> {
    if more == [] then []
    else
      var n := |more| - 1;
      EventsOf(more[..n]) + (if more[n].more != [] then [Begin(more[n].msg)] + EventsOf(more[n].more) + [End]
                             else [Leaf(more[n].lvl, more[n].msg)])
  }

  /** The same with the last groups of the first depth levels still open. */
  function OpenEvents(more: seq<Entry>, depth: nat): seq<Event>
    requires HasPath(more, depth)
  {
    if depth == 0 then EventsOf(more)
    else
      var n := |more| - 1;
      EventsOf(more[..n]) + [Begin(more[n].msg)] + OpenEvents(more[n].more, depth - 1)
  }

  // ---------------------------------------------------------------------------
  // Pruning
  // ---------------------------------------------------------------------------

  /** An end that meets its beginning removes it. */
  function Step(out: seq<Event>, e: Event): seq<Event> {
    if e == End && out != [] && out[|out| - 1].Begin? then out[..|out| - 1] else out + [e]
  }

  /** The events with empty groups pruned, also those that become empty by pruning. */
  function Pruned(events: seq<Event>): seq<Event> {
    if events == [] then [] else Step(Pruned(events[..|events| - 1]), events[|events| - 1])
  }

  predicate EmptyGroupAt(events: seq<Event>, k: nat) {
    k + 1 < |events| && events[k].Begin? && events[k + 1].End?
  }

  ghost predicate NoEmptyGroup(events: seq<Event>) {
    forall k: nat :: !EmptyGroupAt(events, k)
  }

  /** Pruning leaves no empty group. */
  lemma {:induction false} PrunedHasNoEmptyGroup(events: seq<Event>)
    ensures NoEmptyGroup(Pruned(events))
  {
    if events != [] {
      var before, out := Pruned(events[..|events| - 1]), Pruned(events);
      PrunedHasNoEmptyGroup(events[..|events| - 1]);
      forall k: nat ensures !EmptyGroupAt(out, k) {
        assert !EmptyGroupAt(before, k);
      }
    }
  }

  /** What has no empty group is not changed. */
  lemma {:induction false} PrunedKeeps(events: seq<Event>)
    requires NoEmptyGroup(events)
    ensures Pruned(events) == events
  {
    if events != [] {
      var n := |events| - 1;
      var init := events[..n];
      forall k: nat ensures !EmptyGroupAt(init, k) {
        assert !EmptyGroupAt(events, k);
      }
      PrunedKeeps(init);
      assert events == init + [events[n]];
      assert n > 0 ==> !EmptyGroupAt(events, n - 1);
    }
  }

  /** What comes later is pruned without regard to how the result so far came about. */
  lemma {:induction false} PrunedAfter(a: seq<Event>, a': seq<Event>, b: seq<Event>)
    requires Pruned(a) == Pruned(a')
    ensures Pruned(a + b) == Pruned(a' + b)
    decreases |b|
  {
    hide Pruned;
    if b == [] {
      assert a + b == a && a' + b == a';
    } else {
      var n := |b| - 1;
      PrunedAfter(a, a', b[..n]);
      PrunedOne(a + b[..n], b[n]);
      PrunedOne(a' + b[..n], b[n]);
      assert a + b == a + b[..n] + [b[n]] && a' + b == a' + b[..n] + [b[n]];
    }
  }

  /** An empty group makes no difference, wherever it stands. */
  lemma PrunedRemoves(a: seq<Event>, msg: string, b: seq<Event>)
    ensures Pruned(a + [Begin(msg), End] + b) == Pruned(a + b)
  {
    hide Pruned;
    PrunedOther(a, Begin(msg));
    PrunedOne(a + [Begin(msg)], End);
    assert a + [Begin(msg), End] == a + [Begin(msg)] + [End];
    PrunedAfter(a + [Begin(msg), End], a, b);
  }

  /** The single messages among the events. */
  function Leaves(events: seq<Event>): seq<Event> {
    if events == [] then []
    else
      var e := events[|events| - 1];
      Leaves(events[..|events| - 1]) + if e.Leaf? then [e] else []
  }

  /** Pruning neither adds nor drops nor moves a message. */
  lemma {:induction false} PrunedLeaves(events: seq<Event>)
    ensures Leaves(Pruned(events)) == Leaves(events)
  {
    if events != [] {
      var n := |events| - 1;
      PrunedLeaves(events[..n]);
      StepLeaves(Pruned(events[..n]), events[n]);
    }
  }

  lemma StepLeaves(out: seq<Event>, e: Event)
    ensures Leaves(Step(out, e)) == Leaves(out) + if e.Leaf? then [e] else []
  {
    assert (out + [e])[..|out|] == out;
  }

  /** The events of a finished list have no empty group: appended, they stay as they are. */
  lemma {:induction false} PrunedSolid(before: seq<Event>, more: seq<Entry>)
    ensures Pruned(before + EventsOf(more)) == Pruned(before) + EventsOf(more)
    decreases more
  {
    hide Pruned;
    if more == [] {
      assert before + EventsOf(more) == before;
    } else {
      var n := |more| - 1;
      var x, b := more[n], before + EventsOf(more[..n]);
      PrunedSolid(before, more[..n]);
      if x.more != [] {
        PrunedSolid(b + [Begin(x.msg)], x.more);
        PrunedGroup(b, x.msg, x.more);
        assert before + EventsOf(more) == b + [Begin(x.msg)] + EventsOf(x.more) + [End];
      } else {
        PrunedOther(b, Leaf(x.lvl, x.msg));
        assert before + EventsOf(more) == b + [Leaf(x.lvl, x.msg)];
      }
    }
  }

  lemma PrunedGroup(b: seq<Event>, msg: string, more: seq<Entry>)
    requires more != []
    requires Pruned(b + [Begin(msg)] + EventsOf(more)) == Pruned(b + [Begin(msg)]) + EventsOf(more)
    ensures Pruned(b + [Begin(msg)] + EventsOf(more) + [End]) == Pruned(b) + [Begin(msg)] + EventsOf(more) + [End]
  {
    hide Pruned, EventsOf;
    EventsEnd(more);
    PrunedOther(b, Begin(msg));
    PrunedOne(b + [Begin(msg)] + EventsOf(more), End);
  }

  lemma PrunedOther(events: seq<Event>, e: Event)
    requires e != End
    ensures Pruned(events + [e]) == Pruned(events) + [e]
  {
    hide Pruned;
    PrunedOne(events, e);
  }

  lemma PrunedOne(events: seq<Event>, e: Event)
    ensures Pruned(events + [e]) == Step(Pruned(events), e)
  {
    assert (events + [e])[..|events|] == events;
  }

  /** A list that is not empty ends with a leaf or an end. */
  lemma EventsEnd(more: seq<Entry>)
    requires more != []
    ensures EventsOf(more) != [] && !EventsOf(more)[|EventsOf(more)| - 1].Begin?
  {
  }

  // ---------------------------------------------------------------------------
  // Building
  // ---------------------------------------------------------------------------

  /** The open path goes on in the last child. */
  function WithLast(more: seq<Entry>, inner: seq<Entry>): seq<Entry>
    requires more != []
  {
    more[..|more| - 1] + [more[|more| - 1].(more := inner)]
  }

  lemma WithLastKeeps(more: seq<Entry>, inner: seq<Entry>, depth: nat)
    requires more != [] && depth > 0 && HasPath(inner, depth - 1)
    ensures var m := WithLast(more, inner);
            && HasPath(m, depth)
            && OpenEvents(m, depth)
            == EventsOf(more[..|more| - 1]) + [Begin(more[|more| - 1].msg)] + OpenEvents(inner, depth - 1)
  {
    var m := WithLast(more, inner);
    assert m[..|more| - 1] == more[..|more| - 1];
  }

  lemma AppendHere(more: seq<Entry>, child: Entry)
    ensures EventsOf(more + [child]) == EventsOf(more) + EventsOf([child])
  {
    assert (more + [child])[..|more|] == more && [child][..0] == [];
  }

  lemma {:induction false} AppendKeeps(more: seq<Entry>, depth: nat, child: Entry)
    requires HasPath(more, depth)
    ensures var m := AppendAt(more, depth, child);
            HasPath(m, depth) && OpenEvents(m, depth) == OpenEvents(more, depth) + EventsOf([child])
  {
    hide EventsOf;
    var n := |more| - 1;
    if depth == 0 {
      AppendHere(more, child);
    } else {
      AppendKeeps(more[n].more, depth - 1, child);
      WithLastKeeps(more, AppendAt(more[n].more, depth - 1, child), depth);
    }
  }

  lemma {:induction false} OpenKeeps(more: seq<Entry>, depth: nat, msg: string)
    requires HasPath(more, depth)
    ensures var m := AppendAt(more, depth, Entry(BEGIN, msg, []));
            HasPath(m, depth + 1) && OpenEvents(m, depth + 1) == OpenEvents(more, depth) + [Begin(msg)]
  {
    hide EventsOf;
    var n := |more| - 1;
    if depth == 0 {
      OpenHere(more, msg);
    } else {
      OpenKeeps(more[n].more, depth - 1, msg);
      WithLastKeeps(more, AppendAt(more[n].more, depth - 1, Entry(BEGIN, msg, [])), depth + 1);
    }
  }

  lemma OpenHere(more: seq<Entry>, msg: string)
    ensures var m := more + [Entry(BEGIN, msg, [])];
            HasPath(m, 1) && OpenEvents(m, 1) == EventsOf(more) + [Begin(msg)]
  {
    var m := more + [Entry(BEGIN, msg, [])];
    assert m[..|more|] == more;
    assert HasPath([], 0) && OpenEvents([], 0) == [];
  }

  lemma {:induction false} CloseKeeps(more: seq<Entry>, depth: nat)
    requires depth > 0 && HasPath(more, depth)
    ensures HasPath(CloseAt(more, depth), depth - 1)
    ensures OpenEvents(CloseAt(more, depth), depth - 1) == Step(OpenEvents(more, depth), End)
  {
    hide Step, EventsOf;
    var n := |more| - 1;
    if depth == 1 {
      CloseLast(more);
    } else {
      var inner := CloseAt(more[n].more, depth - 1);
      CloseKeeps(more[n].more, depth - 1);
      WithLastKeeps(more, inner, depth - 1);
      StepAfter(EventsOf(more[..n]) + [Begin(more[n].msg)], OpenEvents(more[n].more, depth - 1));
      OpenNonempty(more[n].more, depth - 1);
    }
  }

  /** The innermost open group: removed when empty, closed otherwise. */
  lemma CloseLast(more: seq<Entry>)
    requires HasPath(more, 1)
    ensures EventsOf(CloseAt(more, 1)) == Step(OpenEvents(more, 1), End)
  {
    var n := |more| - 1;
    var out := EventsOf(more[..n]) + [Begin(more[n].msg)];
    assert OpenEvents(more, 1) == out + EventsOf(more[n].more);
    if more[n].more == [] {
      assert out + EventsOf(more[n].more) == out;
    } else {
      EventsEnd(more[n].more);
      StepAfter(out, EventsOf(more[n].more));
    }
  }

  lemma OpenNonempty(more: seq<Entry>, depth: nat)
    requires HasPath(more, depth) && depth > 0
    ensures OpenEvents(more, depth) != []
  {
  }

  /** A step looks at the last event only. */
  lemma StepAfter(a: seq<Event>, b: seq<Event>)
    ensures b != [] ==> a + Step(b, End) == Step(a + b, End)
  {
  }

  // ---------------------------------------------------------------------------
  // What was reported
  // ---------------------------------------------------------------------------

  /** The events of an entry that is given to add. */
  function ReportOf(entry: Entry): seq<Event> {
    match entry.lvl
    case BEGIN => [Begin(entry.msg)]
    case END => [End]
    case _ => EventsOf([entry])
  }

  function Reported(entries: seq<Entry>): seq<Event> {
    if entries == [] then [] else Reported(entries[..|entries| - 1]) + ReportOf(entries[|entries| - 1])
  }

  /** The groups that are open after the entries. */
  function Depth(entries: seq<Entry>): int {
    if entries == [] then 0
    else
      var lvl := entries[|entries| - 1].lvl;
      Depth(entries[..|entries| - 1]) + if lvl == BEGIN then 1 else if lvl == END then -1 else 0
  }

  function CountOf(entries: seq<Entry>, lvl: Severity): nat {
    if entries == [] then 0
    else CountOf(entries[..|entries| - 1], lvl) + if entries[|entries| - 1].lvl == lvl then 1 else 0
  }

  ghost function Places(entries: seq<Entry>, lvl: Severity): set<nat> {
    set i: nat | i < |entries| && entries[i].lvl == lvl
  }

  lemma PlacesMore(entries: seq<Entry>, e: Entry, lvl: Severity)
    ensures Places(entries + [e], lvl) == Places(entries, lvl) + if e.lvl == lvl then {|entries|} else {}
  {
  }

  /** How many entries of a severity there are. */
  lemma {:induction false} CountExact(entries: seq<Entry>, lvl: Severity)
    ensures CountOf(entries, lvl) == |Places(entries, lvl)|
  {
    if entries == [] {
      assert Places(entries, lvl) == {};
    } else {
      var n := |entries| - 1;
      CountExact(entries[..n], lvl);
      PlacesMore(entries[..n], entries[n], lvl);
      assert entries == entries[..n] + [entries[n]];
      assert n !in Places(entries[..n], lvl);
    }
  }

  lemma ReportOne(history: seq<Entry>, e: Entry)
    ensures Reported(history + [e]) == Reported(history) + ReportOf(e)
    ensures Depth(history + [e]) == Depth(history) + if e.lvl == BEGIN then 1 else if e.lvl == END then -1 else 0
  {
    assert (history + [e])[..|history|] == history;
  }

  /** The tree and the open path stand for the pruned events. */
  ghost predicate Stands(more: seq<Entry>, depth: nat, history: seq<Entry>) {
    && HasPath(more, depth)
    && OpenEvents(more, depth) == Pruned(Reported(history))
    && depth == Depth(history)
  }

  lemma StandsOpen(more: seq<Entry>, depth: nat, history: seq<Entry>, entry: Entry)
    requires Stands(more, depth, history) && entry.lvl == BEGIN
    ensures HasPath(more, depth)
    ensures Stands(AppendAt(more, depth, Entry(BEGIN, entry.msg, [])), depth + 1, history + [entry])
  {
    hide OpenEvents, AppendAt, Pruned, Reported, Step;
    OpenKeeps(more, depth, entry.msg);
    ReportOne(history, entry);
    PrunedOther(Reported(history), Begin(entry.msg));
  }

  lemma StandsClose(more: seq<Entry>, depth: nat, history: seq<Entry>, entry: Entry)
    requires Stands(more, depth, history) && entry.lvl == END && Depth(history) > 0
    ensures depth > 0 && HasPath(more, depth)
    ensures Stands(CloseAt(more, depth), depth - 1, history + [entry])
  {
    hide OpenEvents, CloseAt, Pruned, Reported, Step;
    CloseKeeps(more, depth);
    ReportOne(history, entry);
    PrunedOne(Reported(history), End);
  }

  lemma StandsLeaf(more: seq<Entry>, depth: nat, history: seq<Entry>, entry: Entry)
    requires Stands(more, depth, history) && entry.lvl != BEGIN && entry.lvl != END
    ensures HasPath(more, depth)
    ensures Stands(AppendAt(more, depth, entry), depth, history + [entry])
  {
    hide OpenEvents, AppendAt, Pruned, Reported, EventsOf;
    AppendKeeps(more, depth, entry);
    ReportOne(history, entry);
    PrunedSolid(Reported(history), [entry]);
  }

  lemma CountOne(history: seq<Entry>, e: Entry, lvl: Severity)
    ensures CountOf(history + [e], lvl) % UNSIGNED
         == (CountOf(history, lvl) % UNSIGNED + if e.lvl == lvl then 1 else 0) % UNSIGNED
  {
    CountMore(history, e, lvl);
    Wraps(CountOf(history, lvl), if e.lvl == lvl then 1 else 0);
  }

  lemma CountMore(history: seq<Entry>, e: Entry, lvl: Severity)
    ensures CountOf(history + [e], lvl) == CountOf(history, lvl) + if e.lvl == lvl then 1 else 0
  {
    assert (history + [e])[..|history|] == history;
  }

  lemma Wraps(a: nat, d: nat)
    ensures (a + d) % UNSIGNED == (a % UNSIGNED + d) % UNSIGNED
  {
  }

  /** nWarn and nError are unsigned. */
  const UNSIGNED: nat := 0x1_0000_0000

  /** The collector: `depth` is the number of pointers on the stack above the root, each to a last child. */
  class Diagnostics {
    var nWarn: nat
    var nError: nat
    var diagnosis: Entry
    var depth: nat
    /** All that was reported since initialize. */
    ghost var history: seq<Entry>

    ghost predicate Valid()
      reads this
    {
      && diagnosis.lvl == BEGIN && diagnosis.msg == ""
      && Stands(diagnosis.more, depth, history)
      && nWarn == CountOf(history, WARN) % UNSIGNED
      && nError == CountOf(history, ERROR) % UNSIGNED
    }

    constructor ()
      ensures Valid() && history == []
    {
      diagnosis := Entry(BEGIN, "", []);
      depth, nWarn, nError := 0, 0, 0;
      history := [];
    }

    method Initialize()
      modifies this
      ensures Valid() && history == []
    {
      diagnosis := Entry(BEGIN, "", []);
      depth := 0;
      nError, nWarn := 0, 0;
      history := [];
    }

    method BeginGroup(msg: string)
      requires Valid()
      modifies this
      ensures Valid() && history == old(history) + [Entry(BEGIN, msg, [])]
    {
      hide Stands, CountOf, HasPath, AppendAt;
      var group := Entry(BEGIN, msg, []);
      StandsOpen(diagnosis.more, depth, history, group);
      CountOne(history, group, WARN);
      CountOne(history, group, ERROR);
      diagnosis := diagnosis.(more := AppendAt(diagnosis.more, depth, group));
      depth := depth + 1;
      history := history + [group];
    }

    method EndGroup()
      requires Valid() && Depth(history) > 0
      modifies this
      ensures Valid() && history == old(history) + [Entry(END, "", [])]
    {
      hide Stands, CountOf, HasPath, CloseAt, Depth;
      ghost var end := Entry(END, "", []);
      StandsClose(diagnosis.more, depth, history, end);
      CountOne(history, end, WARN);
      CountOne(history, end, ERROR);
      diagnosis := diagnosis.(more := CloseAt(diagnosis.more, depth));
      depth := depth - 1;
      history := history + [end];
    }

    method Add(entry: Entry)
      requires Valid()
      requires entry.lvl == END ==> Depth(history) > 0
      modifies this
      ensures Valid() && history == old(history) + [Recorded(entry)]
    {
      if entry.lvl == BEGIN {
        BeginGroup(entry.msg);
      } else if entry.lvl == END {
        EndGroup();
      } else {
        AddLeaf(entry);
      }
    }

    /** The entry as it is, with whatever it nests. */
    method AddLeaf(entry: Entry)
      requires Valid() && entry.lvl != BEGIN && entry.lvl != END
      modifies this
      ensures Valid() && history == old(history) + [entry]
    {
      hide Stands, CountOf, HasPath, AppendAt;
      StandsLeaf(diagnosis.more, depth, history, entry);
      CountOne(history, entry, WARN);
      CountOne(history, entry, ERROR);
      if entry.lvl == WARN {
        nWarn := (nWarn + 1) % UNSIGNED;
      } else if entry.lvl == ERROR {
        nError := (nError + 1) % UNSIGNED;
      }
      diagnosis := diagnosis.(more := AppendAt(diagnosis.more, depth, entry));
      history := history + [entry];
    }
  }

  /** What add takes from an entry: of a begin only the message, of an end nothing. */
  function Recorded(entry: Entry): Entry {
    match entry.lvl
    case BEGIN => Entry(BEGIN, entry.msg, [])
    case END => Entry(END, "", [])
    case _ => entry
  }

  // ---------------------------------------------------------------------------
  // Processing
  // ---------------------------------------------------------------------------

  /** The calls of the processor's methods, with the context they see. */
  datatype Call =
    | OnGroupBegin(msg: string, context: seq<string>)
    | OnGroupEnd(msg: string, context: seq<string>)
    | OnEntry(lvl: Severity, msg: string, context: seq<string>)

  /** The calls for a list of entries. */
  function CallsOf(more: seq<Entry>, context: seq<string>): seq<Call> {
    if more == [] then []
    else
      var x := more[0];
      (if x.more != [] then
         [OnGroupBegin(x.msg, context)] + CallsOf(x.more, context + [x.msg]) + [OnGroupEnd(x.msg, context)]
       else [OnEntry(x.lvl, x.msg, context)])
      + CallsOf(more[1..], context)
  }

  /** The closing call of an entry. */
  function Closing(entry: Entry, context: seq<string>): seq<Call> {
    if entry.more != [] then [OnGroupEnd(entry.msg, context)] else []
  }

  function Popped(context: seq<string>): seq<string> {
    if context == [] then [] else context[..|context| - 1]
  }

  datatype Frame = Frame(entry: Entry, index: nat)

  predicate FramesOk(stack: seq<Frame>) {
    forall k :: 0 <= k < |stack| ==> stack[k].index <= |stack[k].entry.more|
  }

  /** What remains to be called. */
  function Rest(stack: seq<Frame>, context: seq<string>): seq<Call>
    requires FramesOk(stack)
  {
    if stack == [] then []
    else
      var f := stack[|stack| - 1];
      CallsOf(f.entry.more[f.index..], context) + Closing(f.entry, Popped(context))
      + Rest(stack[..|stack| - 1], Popped(context))
  }

  /** The messages of the frames above the root. */
  predicate ContextOk(stack: seq<Frame>, context: seq<string>) {
    && |context| == (if stack == [] then 0 else |stack| - 1)
    && forall k :: 0 <= k < |context| ==> context[k] == stack[k + 1].entry.msg
  }

  /** Nodes still to be entered and frames still to be left. */
  function Size(more: seq<Entry>): nat {
    if more == [] then 0 else 1 + Size(more[0].more) + Size(more[1..])
  }

  function Work(stack: seq<Frame>): nat
    requires FramesOk(stack)
  {
    if stack == [] then 0
    else
      var f := stack[|stack| - 1];
      1 + 2 * Size(f.entry.more[f.index..]) + Work(stack[..|stack| - 1])
  }

  /** The stack after entering the next child of the top. */
  function Entered(stack: seq<Frame>): seq<Frame>
    requires stack != [] && stack[|stack| - 1].index < |stack[|stack| - 1].entry.more|
  {
    var top, f := |stack| - 1, stack[|stack| - 1];
    stack[top := Frame(f.entry, f.index + 1)] + [Frame(f.entry.more[f.index], 0)]
  }

  lemma EnteredOk(stack: seq<Frame>, context: seq<string>)
    requires FramesOk(stack) && stack != [] && ContextOk(stack, context)
    requires stack[|stack| - 1].index < |stack[|stack| - 1].entry.more|
    ensures FramesOk(Entered(stack))
    ensures ContextOk(Entered(stack), context + [stack[|stack| - 1].entry.more[stack[|stack| - 1].index].msg])
  {
  }

  /** The remaining entries of a frame. */
  lemma NextEntry(more: seq<Entry>, index: nat, context: seq<string>)
    requires index < |more|
    ensures var x := more[index];
            CallsOf(more[index..], context)
            == (if x.more != [] then
                  [OnGroupBegin(x.msg, context)] + CallsOf(x.more, context + [x.msg]) + [OnGroupEnd(x.msg, context)]
                else [OnEntry(x.lvl, x.msg, context)])
               + CallsOf(more[index + 1..], context)
    ensures Size(more[index..]) == 1 + Size(more[index].more) + Size(more[index + 1..])
  {
    assert more[index..][0] == more[index] && more[index..][1..] == more[index + 1..];
  }

  lemma RestOf(stack: seq<Frame>, context: seq<string>)
    requires FramesOk(stack) && stack != []
    ensures var f, below := stack[|stack| - 1], stack[..|stack| - 1];
            && Rest(stack, context)
            == CallsOf(f.entry.more[f.index..], context) + Closing(f.entry, Popped(context)) + Rest(below, Popped(context))
            && Work(stack) == 1 + 2 * Size(f.entry.more[f.index..]) + Work(below)
  {
  }

  /** The two frames on top after entering x. */
  lemma EnteredRest(stack: seq<Frame>, context: seq<string>)
    requires FramesOk(stack) && stack != []
    requires stack[|stack| - 1].index < |stack[|stack| - 1].entry.more| && FramesOk(Entered(stack))
    ensures var f, below := stack[|stack| - 1], stack[..|stack| - 1];
            var x := f.entry.more[f.index];
            && Rest(Entered(stack), context + [x.msg])
            == CallsOf(x.more, context + [x.msg]) + Closing(x, context)
               + (CallsOf(f.entry.more[f.index + 1..], context) + Closing(f.entry, Popped(context))
                  + Rest(below, Popped(context)))
            && Work(Entered(stack)) == 2 + 2 * Size(x.more) + 2 * Size(f.entry.more[f.index + 1..]) + Work(below)
  {
    hide CallsOf, Size, Rest, Work, Closing;
    var top, f := |stack| - 1, stack[|stack| - 1];
    var x := f.entry.more[f.index];
    var stack1, stack2 := stack[top := Frame(f.entry, f.index + 1)], Entered(stack);
    assert stack2[..|stack2| - 1] == stack1 && stack1[..top] == stack[..top];
    assert FramesOk(stack1) && FramesOk(stack[..top]);
    RestOf(stack1, context);
    RestOf(stack2, context + [x.msg]);
    assert Popped(context + [x.msg]) == context;
    assert x.more[0..] == x.more;
  }

  /** Entering the next child. */
  lemma StepIn(stack: seq<Frame>, context: seq<string>)
    requires FramesOk(stack) && stack != []
    requires stack[|stack| - 1].index < |stack[|stack| - 1].entry.more| && FramesOk(Entered(stack))
    ensures Work(Entered(stack)) < Work(stack)
    ensures var x := stack[|stack| - 1].entry.more[stack[|stack| - 1].index];
            Rest(stack, context)
            == [if x.more != [] then OnGroupBegin(x.msg, context) else OnEntry(x.lvl, x.msg, context)]
               + Rest(Entered(stack), context + [x.msg])
  {
    hide CallsOf, Size, Rest, Work, Entered, FramesOk;
    var f, below := stack[|stack| - 1], stack[..|stack| - 1];
    var x := f.entry.more[f.index];
    BelowOk(stack);
    RestOf(stack, context);
    NextEntry(f.entry.more, f.index, context);
    EnteredRest(stack, context);
    NoCalls(context + [x.msg]);
    var c := CallsOf(f.entry.more[f.index + 1..], context);
    var d := Closing(f.entry, Popped(context));
    Regroup(CallsOf(x.more, context + [x.msg]), Closing(x, context), c, d, Rest(below, Popped(context)),
            if x.more != [] then OnGroupBegin(x.msg, context) else OnEntry(x.lvl, x.msg, context));
  }

  lemma BelowOk(stack: seq<Frame>)
    requires FramesOk(stack) && stack != []
    ensures FramesOk(stack[..|stack| - 1])
  {
  }

  lemma Regroup(a: seq<Call>, b: seq<Call>, c: seq<Call>, d: seq<Call>, e: seq<Call>, x: Call)
    ensures ([x] + a + b + c) + d + e == [x] + (a + b + (c + d + e))
  {
  }

  lemma NoCalls(context: seq<string>)
    ensures CallsOf([], context) == [] && Size([]) == 0
  {
  }

  /** Leaving the top. */
  lemma StepOut(stack: seq<Frame>, context: seq<string>)
    requires FramesOk(stack) && stack != [] && ContextOk(stack, context)
    requires stack[|stack| - 1].index == |stack[|stack| - 1].entry.more|
    ensures var below, entry := stack[..|stack| - 1], stack[|stack| - 1].entry;
            && FramesOk(below) && ContextOk(below, Popped(context)) && Work(below) < Work(stack)
            && Rest(stack, context) == Closing(entry, Popped(context)) + Rest(below, Popped(context))
  {
    hide CallsOf, Size, Rest, Work;
    var f := stack[|stack| - 1];
    assert f.entry.more[f.index..] == [];
    RestOf(stack, context);
    NoCalls(context);
  }

  lemma TopOk(stack: seq<Frame>)
    requires FramesOk(stack) && stack != []
    ensures stack[|stack| - 1].index <= |stack[|stack| - 1].entry.more|
  {
  }

  class Processor {
    constructor () {
    }

    /** The depth-first traversal; the log lists the calls in their order. */
    method Process(diagnostics: Diagnostics) returns (log: seq<Call>)
      ensures log == CallsOf(diagnostics.diagnosis.more, []) + Closing(diagnostics.diagnosis, [])
    {
      hide FramesOk, ContextOk, Rest, Work, CallsOf;
      log := [];
      var root := diagnostics.diagnosis;
      var stack: seq<Frame> := [Frame(root, 0)];
      var context: seq<string> := [];
      RootRest(root);
      while stack != []
        invariant FramesOk(stack) && ContextOk(stack, context)
        invariant log + Rest(stack, context) == CallsOf(root.more, []) + Closing(root, [])
        decreases Work(stack)
      {
        var top := |stack| - 1;
        var entry, index := stack[top].entry, stack[top].index;
        TopOk(stack);
        if index < |entry.more| {
          EnteredOk(stack, context);
          StepIn(stack, context);
          var subentry := entry.more[index];
          if subentry.more != [] {
            log := log + [OnGroupBegin(subentry.msg, context)];
          } else {
            log := log + [OnEntry(subentry.lvl, subentry.msg, context)];
          }
          stack := stack[top := Frame(entry, index + 1)] + [Frame(subentry, 0)];
          context := context + [subentry.msg];
        } else {
          StepOut(stack, context);
          stack := stack[..top];
          if context != [] {
            context := context[..|context| - 1];
          }
          if entry.more != [] {
            log := log + [OnGroupEnd(entry.msg, context)];
          }
        }
      }
      NoneLeft(context);
    }
  }

  lemma NoneLeft(context: seq<string>)
    ensures FramesOk([]) && Rest([], context) == []
  {
  }

  lemma RootRest(root: Entry)
    ensures FramesOk([Frame(root, 0)]) && ContextOk([Frame(root, 0)], [])
    ensures Rest([Frame(root, 0)], []) == CallsOf(root.more, []) + Closing(root, [])
  {
    hide CallsOf;
    assert root.more[0..] == root.more;
    NoneLeft([]);
    RestOf([Frame(root, 0)], []);
    assert [Frame(root, 0)][..0] == [];
  }

  // ---------------------------------------------------------------------------
  // From events to calls
  // ---------------------------------------------------------------------------

  /** The call for an event, seen inside the groups that are open. */
  function Annotated(events: seq<Event>, context: seq<string>): seq<Call> {
    if events == [] then []
    else
      match events[0]
      case Begin(msg) => [OnGroupBegin(msg, context)] + Annotated(events[1..], context + [msg])
      case End =>
        (if context == [] then [] else [OnGroupEnd(context[|context| - 1], Popped(context))])
        + Annotated(events[1..], Popped(context))
      case Leaf(lvl, msg) => [OnEntry(lvl, msg, context)] + Annotated(events[1..], context)
  }

  /** The open groups after some events. */
  function ContextAfter(events: seq<Event>, context: seq<string>): seq<string> {
    if events == [] then context
    else
      match events[0]
      case Begin(msg) => ContextAfter(events[1..], context + [msg])
      case End => ContextAfter(events[1..], Popped(context))
      case Leaf(_, _) => ContextAfter(events[1..], context)
  }

  /** Groups begun minus groups ended. */
  function Level(events: seq<Event>): int {
    if events == [] then 0
    else
      var e := events[|events| - 1];
      Level(events[..|events| - 1]) + if e.Begin? then 1 else if e.End? then -1 else 0
  }

  /** No group ends that has not begun. */
  ghost predicate Proper(events: seq<Event>) {
    forall k :: 0 <= k <= |events| ==> Level(events[..k]) >= 0
  }

  /** The group that begins at i has not ended: the level has not come back to what it was. */
  ghost predicate StillOpen(events: seq<Event>, i: nat) {
    && i < |events| && events[i].Begin?
    && forall k :: i < k <= |events| ==> Level(events[..k]) > Level(events[..i])
  }

  /** The d-th of the groups that are open. */
  ghost predicate OpensAt(events: seq<Event>, i: nat, d: nat, msg: string) {
    StillOpen(events, i) && Level(events[..i]) == d && events[i] == Begin(msg)
  }

  lemma ProperInit(events: seq<Event>)
    requires Proper(events) && events != []
    ensures Proper(events[..|events| - 1]) && Level(events) >= 0
  {
    var init := events[..|events| - 1];
    assert events[..|events|] == events;
    forall k | 0 <= k <= |init| ensures Level(init[..k]) >= 0 {
      assert init[..k] == events[..k];
    }
  }

  lemma OpenOn(events: seq<Event>, e: Event, i: nat, d: nat, msg: string)
    requires OpensAt(events, i, d, msg) && Level(events + [e]) > d
    ensures OpensAt(events + [e], i, d, msg)
  {
    hide Level;
    var all := events + [e];
    assert all[..i] == events[..i];
    forall k | i < k <= |all| ensures Level(all[..k]) > d {
      if k <= |events| {
        assert all[..k] == events[..k];
      } else {
        assert all[..k] == all;
      }
    }
  }

  lemma JustOpened(events: seq<Event>, msg: string)
    requires Level(events) >= 0
    ensures OpensAt(events + [Begin(msg)], |events|, Level(events), msg)
  {
    hide Level;
    LevelMore(events, Begin(msg));
    var all := events + [Begin(msg)];
    assert all[..|events|] == events && all[..|all|] == all;
  }

  /** The open groups: as many as the level says, each the one that begins at its level and has not ended. */
  lemma {:induction false} ContextExact(events: seq<Event>, d: nat) returns (i: nat)
    requires Proper(events) && d < |ContextAfter(events, [])|
    ensures |ContextAfter(events, [])| == Level(events)
    ensures OpensAt(events, i, d, ContextAfter(events, [])[d])
    decreases |events|
  {
    hide OpensAt, Proper;
    ContextLevel(events);
    if events == [] {
      assert false;
    }
    var n := |events| - 1;
    var init, e := events[..n], events[n];
    ProperInit(events);
    ContextLevel(init);
    ContextOne(init, e);
    assert events == init + [e];
    if e.Begin? && d == |ContextAfter(init, [])| {
      JustOpened(init, e.msg);
      i := n;
    } else {
      i := ContextExact(init, d);
      OpenOn(init, e, i, d, ContextAfter(init, [])[d]);
    }
  }

  lemma ContextOne(events: seq<Event>, e: Event)
    ensures var c := ContextAfter(events, []);
            ContextAfter(events + [e], []) == if e.Begin? then c + [e.msg] else if e.End? then Popped(c) else c
  {
    AnnotatedJoin(events, [e], []);
    assert [e][1..] == [];
  }

  lemma {:induction false} ContextLevel(events: seq<Event>)
    requires Proper(events)
    ensures |ContextAfter(events, [])| == Level(events)
    decreases |events|
  {
    if events != [] {
      var n := |events| - 1;
      ProperInit(events);
      ContextLevel(events[..n]);
      ContextOne(events[..n], events[n]);
      assert events == events[..n] + [events[n]];
    }
  }

  /** The call tells of the event inside the open groups; the end of a group names the innermost one. */
  predicate Calls(e: Event, open: seq<string>, call: Call) {
    match call
    case OnGroupBegin(msg, c) => e == Begin(msg) && c == open
    case OnGroupEnd(msg, c) => e == End && c + [msg] == open
    case OnEntry(lvl, msg, c) => e == Leaf(lvl, msg) && c == open
  }

  /** Call number k is the one for event number k, seen inside the groups open at its place. */
  lemma AnnotatedAt(events: seq<Event>, k: nat)
    requires Proper(events) && k < |events|
    ensures |Annotated(events, [])| == |events|
    ensures Calls(events[k], ContextAfter(events[..k], []), Annotated(events, [])[k])
  {
    hide Annotated, ContextAfter, Level, Proper;
    var a, b := events[..k], events[k + 1..];
    assert events == a + ([events[k]] + b);
    ProperPrefix(events, k);
    ProperPrefix(events, k + 1);
    AnnotatedSize(events);
    AnnotatedSize(a);
    ContextLevel(a);
    ContextLevel(events[..k + 1]);
    LevelOne(events, k);
    AnnotatedJoin(a, [events[k]] + b, []);
    AnnotatedFirst(events[k], b, ContextAfter(a, []));
  }

  lemma AnnotatedFirst(e: Event, b: seq<Event>, c: seq<string>)
    requires e.End? ==> c != []
    ensures |Annotated([e] + b, c)| > 0 && Calls(e, c, Annotated([e] + b, c)[0])
  {
  }

  lemma LevelOne(events: seq<Event>, k: nat)
    requires k < |events|
    ensures Level(events[..k + 1]) == Level(events[..k]) + if events[k].Begin? then 1 else if events[k].End? then -1 else 0
  {
    assert events[..k + 1][..k] == events[..k];
  }

  lemma ProperPrefix(events: seq<Event>, k: nat)
    requires Proper(events) && k <= |events|
    ensures Proper(events[..k])
  {
    forall j | 0 <= j <= k ensures Level(events[..k][..j]) >= 0 {
      assert events[..k][..j] == events[..j];
    }
  }

  lemma {:induction false} AnnotatedSize(events: seq<Event>)
    requires Proper(events)
    ensures |Annotated(events, [])| == |events|
    decreases |events|
  {
    hide Annotated, ContextAfter, Level;
    if events == [] {
      NoneAnnotated();
    } else {
      var n := |events| - 1;
      var init := events[..n];
      ProperPrefix(events, n);
      AnnotatedSize(init);
      ContextLevel(init);
      ContextLevel(events);
      assert events[..n + 1] == events;
      LevelOne(events, n);
      AnnotatedJoin(init, [events[n]], []);
      assert events == init + [events[n]];
      AnnotatedSingle(events[n], ContextAfter(init, []));
    }
  }

  lemma NoneAnnotated()
    ensures Annotated([], []) == []
  {
  }

  lemma AnnotatedSingle(e: Event, c: seq<string>)
    requires e.End? ==> c != []
    ensures |Annotated([e], c)| == 1
  {
    assert [e][1..] == [];
  }

  lemma LevelMore(events: seq<Event>, e: Event)
    ensures Level(events + [e]) == Level(events) + if e.Begin? then 1 else if e.End? then -1 else 0
  {
    assert (events + [e])[..|events|] == events;
  }

  lemma ProperMore(events: seq<Event>, e: Event)
    requires Proper(events) && (e.End? ==> Level(events) > 0)
    ensures Proper(events + [e])
  {
    hide Level;
    var all := events + [e];
    LevelMore(events, e);
    assert events[..|events|] == events;
    forall k | 0 <= k <= |all| ensures Level(all[..k]) >= 0 {
      if k <= |events| {
        assert all[..k] == events[..k];
      } else {
        assert all[..k] == all;
      }
    }
  }

  lemma {:induction false} ProperSolid(before: seq<Event>, more: seq<Entry>)
    requires Proper(before)
    ensures Proper(before + EventsOf(more)) && Level(before + EventsOf(more)) == Level(before)
    decreases more
  {
    hide Level, Proper;
    if more == [] {
      assert before + EventsOf(more) == before;
    } else {
      var n := |more| - 1;
      var x, b := more[n], before + EventsOf(more[..n]);
      ProperSolid(before, more[..n]);
      ProperLevel(b);
      if x.more != [] {
        var c := b + [Begin(x.msg)];
        ProperMore(b, Begin(x.msg));
        LevelMore(b, Begin(x.msg));
        ProperSolid(c, x.more);
        ProperMore(c + EventsOf(x.more), End);
        LevelMore(c + EventsOf(x.more), End);
        assert before + EventsOf(more) == c + EventsOf(x.more) + [End];
      } else {
        ProperMore(b, Leaf(x.lvl, x.msg));
        LevelMore(b, Leaf(x.lvl, x.msg));
        assert before + EventsOf(more) == b + [Leaf(x.lvl, x.msg)];
      }
    }
  }

  lemma ProperLevel(events: seq<Event>)
    requires Proper(events)
    ensures Level(events) >= 0
  {
    assert events[..|events|] == events;
  }

  /** Entries that end no group before it has begun make proper events. */
  lemma {:induction false} ReportedProper(entries: seq<Entry>)
    requires forall k :: 0 <= k <= |entries| ==> Depth(entries[..k]) >= 0
    ensures Proper(Reported(entries)) && Level(Reported(entries)) == Depth(entries)
  {
    hide Level, Proper;
    if entries == [] {
      NoneProper();
    } else {
      var n := |entries| - 1;
      var e, before := entries[n], Reported(entries[..n]);
      forall k | 0 <= k <= n ensures Depth(entries[..n][..k]) >= 0 {
        assert entries[..n][..k] == entries[..k];
      }
      assert entries[..|entries|] == entries;
      ReportedProper(entries[..n]);
      match e.lvl
      case BEGIN =>
        ProperMore(before, Begin(e.msg));
        LevelMore(before, Begin(e.msg));
      case END =>
        ProperMore(before, End);
        LevelMore(before, End);
      case _ =>
        ProperSolid(before, [e]);
    }
  }

  lemma NoneProper()
    ensures Proper([]) && Level([]) == 0
  {
  }

  /** Pruning keeps events proper. */
  lemma {:induction false} PrunedProper(events: seq<Event>)
    requires Proper(events)
    ensures Proper(Pruned(events)) && Level(Pruned(events)) == Level(events)
  {
    hide Level, Proper;
    if events == [] {
      NoneProper();
    } else {
      var n := |events| - 1;
      var out, e := Pruned(events[..n]), events[n];
      ProperInit(events);
      PrunedProper(events[..n]);
      assert events == events[..n] + [e];
      LevelMore(events[..n], e);
      if e == End && out != [] && out[|out| - 1].Begin? {
        ProperInit(out);
        assert out == out[..|out| - 1] + [out[|out| - 1]];
        LevelMore(out[..|out| - 1], out[|out| - 1]);
      } else {
        ProperLevel(events);
        ProperMore(out, e);
        LevelMore(out, e);
      }
    }
  }

  lemma {:induction false} AnnotatedJoin(a: seq<Event>, b: seq<Event>, context: seq<string>)
    ensures Annotated(a + b, context) == Annotated(a, context) + Annotated(b, ContextAfter(a, context))
    ensures ContextAfter(a + b, context) == ContextAfter(b, ContextAfter(a, context))
  {
    if a == [] {
      assert a + b == b;
    } else {
      assert (a + b)[1..] == a[1..] + b && (a + b)[0] == a[0];
      match a[0]
      case Begin(msg) => AnnotatedJoin(a[1..], b, context + [msg]);
      case End => AnnotatedJoin(a[1..], b, Popped(context));
      case Leaf(_, _) => AnnotatedJoin(a[1..], b, context);
    }
  }

  lemma {:induction false} CallsJoin(a: seq<Entry>, b: seq<Entry>, context: seq<string>)
    ensures CallsOf(a + b, context) == CallsOf(a, context) + CallsOf(b, context)
  {
    if a == [] {
      assert a + b == b;
    } else {
      assert (a + b)[1..] == a[1..] + b && (a + b)[0] == a[0];
      CallsJoin(a[1..], b, context);
    }
  }

  /** The calls for a list are its events, each seen inside its enclosing groups. */
  lemma {:induction false} CallsAnnotate(more: seq<Entry>, context: seq<string>)
    ensures CallsOf(more, context) == Annotated(EventsOf(more), context)
    ensures ContextAfter(EventsOf(more), context) == context
  {
    if more != [] {
      var n := |more| - 1;
      var x := more[n];
      CallsAnnotate(more[..n], context);
      CallsAnnotate(x.more, context + [x.msg]);
      assert more == more[..n] + [x];
      CallsJoin(more[..n], [x], context);
      EntryAnnotates(x, context);
      EventsOfLast(more);
      AnnotatedJoin(EventsOf(more[..n]), EventsOf([x]), context);
    }
  }

  lemma EventsOfLast(more: seq<Entry>)
    requires more != []
    ensures EventsOf(more) == EventsOf(more[..|more| - 1]) + EventsOf([more[|more| - 1]])
  {
    assert [more[|more| - 1]][..0] == [];
  }

  lemma EntryAnnotates(x: Entry, context: seq<string>)
    requires CallsOf(x.more, context + [x.msg]) == Annotated(EventsOf(x.more), context + [x.msg])
    requires ContextAfter(EventsOf(x.more), context + [x.msg]) == context + [x.msg]
    ensures CallsOf([x], context) == Annotated(EventsOf([x]), context)
    ensures ContextAfter(EventsOf([x]), context) == context
  {
    OneEntry(x);
    hide EventsOf;
    NoCalls(context);
    if x.more != [] {
      var c := context + [x.msg];
      assert EventsOf([x]) == [Begin(x.msg)] + (EventsOf(x.more) + [End]);
      AnnotatedJoin([Begin(x.msg)], EventsOf(x.more) + [End], context);
      AnnotatedJoin(EventsOf(x.more), [End], c);
      assert Popped(c) == context;
    }
  }

  lemma OneEntry(x: Entry)
    ensures EventsOf([x])
         == if x.more != [] then [Begin(x.msg)] + EventsOf(x.more) + [End] else [Leaf(x.lvl, x.msg)]
  {
    assert [x][..0] == [];
  }

  lemma EventsNonempty(more: seq<Entry>)
    ensures more == [] <==> EventsOf(more) == []
  {
    if more != [] {
      EventsEnd(more);
    }
  }

  /**
   Reporting and then processing: for a balanced sequence of entries the calls are the
   pruned events, each seen inside exactly its enclosing groups, and one closing call
   for a root that is not empty.
   */
  lemma ReportedCalls(diagnosis: Entry, history: seq<Entry>)
    requires Stands(diagnosis.more, 0, history)
    ensures CallsOf(diagnosis.more, []) + Closing(diagnosis, [])
         == Annotated(Pruned(Reported(history)), [])
            + if Pruned(Reported(history)) != [] then [OnGroupEnd(diagnosis.msg, [])] else []
  {
    hide CallsOf, Annotated, EventsOf, Pruned, Reported;
    CallsAnnotate(diagnosis.more, []);
    EventsNonempty(diagnosis.more);
  }

  // ---------------------------------------------------------------------------
  // Reporting, then processing
  // ---------------------------------------------------------------------------

  /** The messages that are shown are those reported, in order, each seen inside the groups open at its place. */
  lemma ShownEntries(entries: seq<Entry>, k: nat)
    requires forall k :: 0 <= k <= |entries| ==> Depth(entries[..k]) >= 0
    ensures var shown := Pruned(Reported(entries));
      && Leaves(shown) == Leaves(Reported(entries))
      && |Annotated(shown, [])| == |shown|
      && (k < |shown| ==> Calls(shown[k], ContextAfter(shown[..k], []), Annotated(shown, [])[k]))
  {
    hide Pruned, Reported, Annotated, ContextAfter, Calls, Proper, Leaves, Depth;
    ReportedProper(entries);
    PrunedProper(Reported(entries));
    PrunedLeaves(Reported(entries));
    AnnotatedSize(Pruned(Reported(entries)));
    if k < |Pruned(Reported(entries))| {
      AnnotatedAt(Pruned(Reported(entries)), k);
    }
  }

  /** Reports all entries and processes the result. */
  method ReportAndProcess(diagnostics: Diagnostics, processor: Processor, entries: seq<Entry>) returns (log: seq<Call>)
    requires forall k :: 0 <= k <= |entries| ==> Depth(entries[..k]) >= 0
    requires Depth(entries) == 0
    modifies diagnostics
    ensures log == Annotated(Pruned(Reported(entries)), [])
                + if Pruned(Reported(entries)) != [] then [OnGroupEnd("", [])] else []
    ensures diagnostics.nWarn == CountOf(entries, WARN) % UNSIGNED
    ensures diagnostics.nError == CountOf(entries, ERROR) % UNSIGNED
  {
    hide Stands, CallsOf, Annotated, Pruned, CountOf, Reported, Depth;
    diagnostics.Initialize();
    var k := 0;
    SameSoFar([], []);
    while k < |entries|
      invariant k <= |entries| && diagnostics.Valid()
      invariant SameReports(diagnostics.history, entries[..k])
    {
      ReportedMore(diagnostics.history, entries, k);
      diagnostics.Add(entries[k]);
      k := k + 1;
    }
    assert entries[..k] == entries;
    ReportedCallsOf(diagnostics);
    log := processor.Process(diagnostics);
  }

  /** Both histories amount to the same. */
  ghost predicate SameReports(a: seq<Entry>, b: seq<Entry>) {
    && Reported(a) == Reported(b) && Depth(a) == Depth(b)
    && CountOf(a, WARN) == CountOf(b, WARN) && CountOf(a, ERROR) == CountOf(b, ERROR)
  }

  lemma SameSoFar(a: seq<Entry>, b: seq<Entry>)
    requires a == b
    ensures SameReports(a, b)
  {
  }

  lemma ReportedMore(history: seq<Entry>, entries: seq<Entry>, k: nat)
    requires k < |entries| && Depth(entries[..k + 1]) >= 0 && SameReports(history, entries[..k])
    ensures SameReports(history + [Recorded(entries[k])], entries[..k + 1])
    ensures entries[k].lvl == END ==> Depth(history) > 0
  {
    hide Reported, Depth, CountOf;
    var e := entries[k];
    assert entries[..k + 1] == entries[..k] + [e];
    ReportOne(history, Recorded(e));
    ReportOne(entries[..k], e);
    CountMore(history, Recorded(e), WARN);
    CountMore(entries[..k], e, WARN);
    CountMore(history, Recorded(e), ERROR);
    CountMore(entries[..k], e, ERROR);
  }

  lemma ReportedCallsOf(diagnostics: Diagnostics)
    requires diagnostics.Valid() && Depth(diagnostics.history) == 0
    ensures CallsOf(diagnostics.diagnosis.more, []) + Closing(diagnostics.diagnosis, [])
         == Annotated(Pruned(Reported(diagnostics.history)), [])
            + if Pruned(Reported(diagnostics.history)) != [] then [OnGroupEnd("", [])] else []
  {
    hide CallsOf, Annotated, Pruned, CountOf, HasPath, OpenEvents, Reported;
    ReportedCalls(diagnostics.diagnosis, diagnostics.history);
  }
}
