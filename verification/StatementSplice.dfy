/** Replacing the statements of a list, in place, by what a transformer makes of them: one node, none, or several in
    their order. */
module StatementSplice {
  /** What the transformer answers: one node, none, or a list of nodes. */
  datatype Update<T> = One(node: T) | Nothing | Many(nodes: seq<T>)

  function Replacement<T>(u: Update<T>): seq<T> {
    match u
    case One(node) => [node]
    case Nothing => []
    case Many(nodes) => nodes
  }

  /** The replacements one after another. */
  function FlatMap<T>(answers: seq<Update<T>>): seq<T> {
    if answers == [] then [] else FlatMap(answers[..|answers| - 1]) + Replacement(answers[|answers| - 1])
  }

  lemma {:induction false} FlatMapConcat<T>(a: seq<Update<T>>, b: seq<Update<T>>)
    ensures FlatMap(a + b) == FlatMap(a) + FlatMap(b)
    decreases |b|
  {
    if b == [] {
      assert a + b == a;
    } else {
      var c, last := b[..|b| - 1], b[|b| - 1];
      var all := a + b;
      assert all[..|all| - 1] == a + c && all[|all| - 1] == last;
      FlatMapConcat(a, c);
      assert FlatMap(a) + (FlatMap(c) + Replacement(last)) == FlatMap(a) + FlatMap(c) + Replacement(last);
    }
  }

  /** What a single answer leaves in the list: the node, nothing, or the nodes in their order. */
  lemma OneAnswer<T>(x: T, xs: seq<T>)
    ensures FlatMap([One(x)]) == [x] && FlatMap<T>([Nothing]) == [] && FlatMap([Many(xs)]) == xs
  {
    assert [One(x)][..0] == [] && [Update<T>.Nothing][..0] == [] && [Many(xs)][..0] == [];
  }

  /** Where the replacement of statement `k` stands in the result. */
  lemma ReplacementStands<T>(answers: seq<Update<T>>, k: nat)
    requires k < |answers|
    ensures var from := |FlatMap(answers[..k])|;
      && from + |Replacement(answers[k])| <= |FlatMap(answers)|
      && FlatMap(answers)[from..from + |Replacement(answers[k])|] == Replacement(answers[k])
  {
    var one := answers[..k + 1];
    assert one[..k] == answers[..k];
    assert answers == one + answers[k + 1..];
    FlatMapConcat(one, answers[k + 1..]);
  }

  /** Answering every statement with itself changes nothing. */
  lemma {:induction false} KeepingAllIsIdentity<T>(statements: seq<T>, answers: seq<Update<T>>)
    requires |answers| == |statements| && forall k :: 0 <= k < |answers| ==> answers[k] == One(statements[k])
    ensures FlatMap(answers) == statements
    decreases |statements|
  {
    if statements != [] {
      var last := |statements| - 1;
      KeepingAllIsIdentity(statements[..last], answers[..last]);
      assert statements == statements[..last] + [statements[last]];
    }
  }

  class StatementList<T(==)> {
    var statements: seq<T>

    constructor (statements: seq<T>)
      ensures this.statements == statements
    {
      this.statements := statements;
    }

    method Insert(at: nat, x: T)
      requires at <= |statements|
      modifies this
      ensures statements == old(statements)[..at] + [x] + old(statements)[at..]
    {
      statements := statements[..at] + [x] + statements[at..];
    }

    method Erase(at: nat)
      requires at < |statements|
      modifies this
      ensures statements == old(statements)[..at] + old(statements)[at + 1..]
    {
      statements := statements[..at] + statements[at + 1..];
    }

    /** The list is edited under the iterator. The transformer is asked once for each statement that was there at the
        start, in order, and never for one that was put in; `answers[k]` is its `k`-th answer, whatever that depends
        on. */
    method UpdateForMultipleTransformedStatements(answers: seq<Update<T>>) returns (asked: seq<T>)
      requires |answers| == |statements|
      modifies this
      ensures statements == FlatMap(answers)
      ensures asked == old(statements)
    {
      ghost var origin := statements;
      asked := [];
      var iter, k := 0, 0;
      while iter < |statements|
        invariant k <= |origin| == |answers| && asked == origin[..k]
        invariant iter == |FlatMap(answers[..k])| && statements == FlatMap(answers[..k]) + origin[k..]
        decreases |origin| - k
      {
        ghost var done, rest := FlatMap(answers[..k]), origin[k + 1..];
        Spliced(done, origin, k);
        assert answers[..k + 1][..k] == answers[..k];
        asked := asked + [statements[iter]];
        iter := Apply(iter, answers[k]);
        k := k + 1;
      }
      assert answers[..|answers|] == answers;
    }

    static lemma Spliced(done: seq<T>, origin: seq<T>, k: nat)
      ensures k < |origin| ==>
                && (done + origin[k..])[|done|] == origin[k]
                && (done + origin[k..])[..|done|] == done && (done + origin[k..])[|done| + 1..] == origin[k + 1..]
    {
    }

    /** Puts an answer in the place of the statement at the iterator, which moves on behind it. */
    method Apply(at: nat, answer: Update<T>) returns (iter: nat)
      requires at < |statements|
      modifies this
      ensures iter == at + |Replacement(answer)|
      ensures statements == old(statements)[..at] + Replacement(answer) + old(statements)[at + 1..]
    {
      iter := at;
      if answer.One? {
        if answer.node != statements[iter] {
          statements := statements[iter := answer.node];
        }
        iter := iter + 1;
      } else if answer.Nothing? {
        Erase(iter);
      } else {
        iter := InsertAll(iter, answer.nodes);
        Erase(iter);
      }
    }

    /** Puts nodes in front of the iterator, which moves on behind them. */
    method InsertAll(at: nat, nodes: seq<T>) returns (iter: nat)
      requires at <= |statements|
      modifies this
      ensures iter == at + |nodes|
      ensures statements == old(statements)[..at] + nodes + old(statements)[at..]
    {
      iter := at;
      for i := 0 to |nodes|
        invariant iter == at + i && |statements| == old(|statements|) + i
        invariant statements == old(statements)[..at] + nodes[..i] + old(statements)[at..]
      {
        Insert(iter, nodes[i]);
        iter := iter + 1;
        assert nodes[..i + 1] == nodes[..i] + [nodes[i]];
      }
    }
  }
}
