// The compose state machine: it follows the keysyms that are typed through the
// table.  Its status is determined by which sequences have results, whatever
// the shape of the tree that holds them.
module ComposeState {
  import opened Basics
  import opened ComposeTrie
  import opened ComposeTable
  import opened StringPool

  datatype Status = Nothing | Composing | Composed | Cancelled

  const SHIFT_L: nat := 0xffe1
  const HYPER_R: nat := 0xffee
  const ISO_LOCK: nat := 0xfe01
  const ISO_LEVEL5_LOCK: nat := 0xfe13
  const MODE_SWITCH: nat := 0xff7e
  const NUM_LOCK: nat := 0xff7f

  predicate IsModifier(keysym: nat) {
    || SHIFT_L <= keysym <= HYPER_R
    || ISO_LOCK <= keysym <= ISO_LEVEL5_LOCK
    || keysym == MODE_SWITCH
    || keysym == NUM_LOCK
  }

  // ------------------------------------------------------------------------
  // What the documentation promises, over the results of sequences

  // The sequence in progress after one more keysym: it goes on with a
  // sequence that can still be completed, otherwise it starts anew.
  ghost function Typed(t: Table, s: seq<nat>, keysym: nat): seq<nat>
    requires TableOk(t)
  {
    if IsModifier(keysym) then s
    else if Open(t, s) then s + [keysym]
    else [keysym]
  }

  ghost function StatusOf(t: Table, s: seq<nat>): Status
    requires TableOk(t)
  {
    if s == [] then Nothing
    else if Lookup(t, s).Some? then Composed
    else if Open(t, s) then Composing
    else if |s| == 1 then Nothing
    else Cancelled
  }

  // The sequence in progress after all keysyms.
  ghost function TypedAll(t: Table, keysyms: seq<nat>): seq<nat>
    requires TableOk(t)
  {
    if keysyms == [] then []
    else Typed(t, TypedAll(t, keysyms[..|keysyms| - 1]), keysyms[|keysyms| - 1])
  }

  // The documented transitions: from a finished sequence a new one is started,
  // and a sequence in progress is advanced, completed or cancelled.
  lemma Transitions(t: Table, s: seq<nat>, keysym: nat)
    requires TableOk(t) && !IsModifier(keysym)
    ensures var next := StatusOf(t, Typed(t, s, keysym));
            if StatusOf(t, s) == Composing then
              next == if Lookup(t, s + [keysym]).Some? then Composed
                      else if Open(t, s + [keysym]) then Composing
                      else Cancelled
            else
              next == if Lookup(t, [keysym]).Some? then Composed
                      else if Open(t, [keysym]) then Composing
                      else Nothing
  {
    if s == [] {
      assert s + [keysym] == [keysym];
    } else if Lookup(t, s).Some? && Open(t, s) {
      var u :| Extends(t, s, u);
      PrefixFree(t, s, u);
    }
  }

  // The keysyms of a run that are not modifiers.
  function Unmodified(keysyms: seq<nat>): (r: seq<nat>)
    ensures forall i :: 0 <= i < |r| ==> !IsModifier(r[i])
  {
    if keysyms == [] then []
    else
      var last := |keysyms| - 1;
      Unmodified(keysyms[..last]) + if IsModifier(keysyms[last]) then [] else [keysyms[last]]
  }

  // Modifiers anywhere in a run do not affect the sequence in progress.
  lemma {:induction false} ModifiersIgnored(t: Table, keysyms: seq<nat>)
    requires TableOk(t)
    ensures TypedAll(t, keysyms) == TypedAll(t, Unmodified(keysyms))
  {
    if keysyms != [] {
      var last := |keysyms| - 1;
      ModifiersIgnored(t, keysyms[..last]);
      var before := Unmodified(keysyms[..last]);
      if IsModifier(keysyms[last]) {
        assert before + [] == before;
      } else {
        assert (before + [keysyms[last]])[..|before|] == before;
      }
    }
  }

  lemma {:induction false} UnmodifiedPrefix(keysyms: seq<nat>, k: nat)
    requires k <= |keysyms|
    ensures Unmodified(keysyms[..k]) <= Unmodified(keysyms)
  {
    if k < |keysyms| {
      var last := |keysyms| - 1;
      UnmodifiedPrefix(keysyms[..last], k);
      assert keysyms[..last][..k] == keysyms[..k];
    } else {
      assert keysyms[..k] == keysyms;
    }
  }

  // Typing a sequence that has a result, with modifiers anywhere in between,
  // composes it, at its last keysym.
  lemma SequenceComposes(t: Table, keysyms: seq<nat>)
    requires TableOk(t) && Lookup(t, Unmodified(keysyms)).Some?
    ensures TypedAll(t, keysyms) == Unmodified(keysyms) && StatusOf(t, TypedAll(t, keysyms)) == Composed
    ensures forall k :: 0 <= k <= |keysyms| && 0 < |Unmodified(keysyms[..k])| < |Unmodified(keysyms)| ==>
              StatusOf(t, TypedAll(t, keysyms[..k])) == Composing
  {
    var s := Unmodified(keysyms);
    ModifiersIgnored(t, keysyms);
    PrefixTyped(t, s, |s|);
    assert s[..|s|] == s;
    forall k | 0 <= k <= |keysyms| && 0 < |Unmodified(keysyms[..k])| < |s|
      ensures StatusOf(t, TypedAll(t, keysyms[..k])) == Composing
    {
      var part := Unmodified(keysyms[..k]);
      UnmodifiedPrefix(keysyms, k);
      ModifiersIgnored(t, keysyms[..k]);
      assert s[..|part|] == part;
      PrefixTyped(t, s, |part|);
    }
  }

  lemma {:induction false} PrefixTyped(t: Table, s: seq<nat>, k: nat)
    requires TableOk(t) && Lookup(t, s).Some? && k <= |s| && forall i :: 0 <= i < |s| ==> !IsModifier(s[i])
    ensures TypedAll(t, s[..k]) == s[..k]
    ensures 0 < k < |s| ==> StatusOf(t, s[..k]) == Composing
  {
    if k > 0 {
      PrefixTyped(t, s, k - 1);
      assert s[..k][..k - 1] == s[..k - 1] && s[..k] == s[..k - 1] + [s[k - 1]];
      assert s == s[..k - 1] + s[k - 1..];
      assert Extends(t, s[..k - 1], s[k - 1..]);
    }
    if 0 < k < |s| {
      assert s == s[..k] + s[k..];
      assert Extends(t, s[..k], s[k..]);
      if Lookup(t, s[..k]).Some? {
        PrefixFree(t, s[..k], s[k..]);
      }
    }
  }

  // ------------------------------------------------------------------------
  // The state machine

  class State {
    const table: Table
    var prevContext: nat
    var context: nat
    ghost var typed: seq<nat>  // the sequence in progress

    ghost predicate Valid()
      reads this
    {
      && TableOk(table)
      && context == Reach(table.nodes, Root(table.nodes), typed)
      && prevContext < |table.nodes|
      && (context == 0 ==> (table.nodes[prevContext].isLeaf <==> |typed| <= 1))
    }

    constructor (table: Table)
      requires TableOk(table)
      ensures Valid() && this.table == table && typed == []
    {
      this.table := table;
      prevContext := 0;
      context := 0;
      typed := [];
    }

    method Reset()
      requires Valid()
      modifies this
      ensures Valid() && typed == []
    {
      prevContext := 0;
      context := 0;
      typed := [];
    }

    method Feed(keysym: nat) returns (accepted: bool)
      requires Valid()
      modifies this
      ensures Valid() && typed == Typed(table, old(typed), keysym)
      ensures accepted == !IsModifier(keysym)
      ensures !accepted ==> typed == old(typed) && context == old(context) && prevContext == old(prevContext)
    {
      if IsModifier(keysym) {
        return false;
      }
      Continued(table, typed, keysym);
      var nodes := table.nodes;
      var next: nat := if nodes[context].isLeaf then 1 else nodes[context].payload;
      if next == 1 && |nodes| == 1 {
        next := 0;
      }
      ghost var start := next;
      while next != 0 && keysym != nodes[next].keysym
        invariant next < |nodes|
        invariant Reach(nodes, next, [keysym]) == Reach(nodes, start, [keysym])
        decreases Rank(nodes, next)
      {
        assert NodeOrdered(nodes, next);
        if keysym < nodes[next].keysym {
          next := nodes[next].lokid;
        } else {
          next := nodes[next].hikid;
        }
      }
      typed := Typed(table, typed, keysym);
      prevContext := context;
      context := next;
      return true;
    }

    method GetStatus() returns (status: Status)
      requires Valid()
      ensures status == StatusOf(table, typed)
    {
      if typed != [] {
        InnerIsOpen(table, typed);
      }
      if context == 0 && !table.nodes[prevContext].isLeaf {
        return Cancelled;
      }
      if context == 0 {
        return Nothing;
      }
      if !table.nodes[context].isLeaf {
        return Composing;
      }
      return Composed;
    }

    method GetOneSym() returns (keysym: nat)
      requires Valid()
      ensures keysym == match Lookup(table, typed) case Some(r) => r.keysym case None => NO_SYMBOL
    {
      if !table.nodes[context].isLeaf {
        return NO_SYMBOL;
      }
      return table.nodes[context].payload;
    }

    // The text of a keysym is given.
    method GetUtf8(keysymText: nat -> string) returns (text: string)
      requires Valid()
      ensures text == match Lookup(table, typed)
                      case Some(Result(Some(s), _)) => s
                      case Some(Result(None, keysym)) => if keysym != NO_SYMBOL then keysymText(keysym) else ""
                      case None => ""
    {
      var node := table.nodes[context];
      if !node.isLeaf {
        return "";
      }
      if node.utf8 == 0 && node.payload != NO_SYMBOL {
        return keysymText(node.payload);
      }
      return StringAt(table.pool, node.utf8);
    }
  }

  // Feed a run of keysyms to a new state, and ask for the status.  Modifiers do
  // not count, and a sequence with a result composes.
  method FeedAll(table: Table, keysyms: seq<nat>) returns (state: State, status: Status)
    requires TableOk(table)
    ensures fresh(state) && state.Valid() && state.table == table && state.typed == TypedAll(table, keysyms)
    ensures status == StatusOf(table, TypedAll(table, Unmodified(keysyms)))
    ensures Unmodified(keysyms) == [] ==> status == Nothing
    ensures Lookup(table, Unmodified(keysyms)).Some? ==> status == Composed
  {
    state := new State(table);
    for k := 0 to |keysyms|
      invariant fresh(state) && state.Valid() && state.table == table
      invariant state.typed == TypedAll(table, keysyms[..k])
    {
      assert keysyms[..k + 1][..k] == keysyms[..k];
      var accepted := state.Feed(keysyms[k]);
    }
    assert keysyms[..|keysyms|] == keysyms;
    ModifiersIgnored(table, keysyms);
    if Lookup(table, Unmodified(keysyms)).Some? {
      SequenceComposes(table, keysyms);
    }
    status := state.GetStatus();
  }

  // Where the machine goes on from the node of the sequence in progress.
  lemma Continued(t: Table, s: seq<nat>, keysym: nat)
    requires TableOk(t) && !IsModifier(keysym)
    ensures var c := Reach(t.nodes, Root(t.nodes), s);
            var next := if !t.nodes[c].isLeaf then t.nodes[c].payload else Root(t.nodes);
            && next < |t.nodes|
            && Reach(t.nodes, Root(t.nodes), Typed(t, s, keysym)) == Reach(t.nodes, next, [keysym])
            && (t.nodes[c].isLeaf <==> |Typed(t, s, keysym)| <= 1)
  {
    var c := Reach(t.nodes, Root(t.nodes), s);
    if s != [] {
      InnerIsOpen(t, s);
      ReachAppend(t.nodes, Root(t.nodes), s, [keysym]);
      if c != 0 {
        assert NodeOrdered(t.nodes, c);
      }
    } else {
      assert s + [keysym] == [keysym];
    }
  }
}
