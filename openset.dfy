/**
 * The open set of the search, modelled abstractly: a finite set of nodes from which the node
 * ranking highest under `Node.CompareTo` is removed first. Membership is set membership, and an
 * item whose costs improved needs no repair, because the next removal looks at the current costs.
 */
module OpenSet {
  import opened Nodes

  /** `best` ranks at least as high as every node of `open`. */
  predicate RanksFirst(best: Node, open: set<Node>)
    reads open, best
  {
    forall n :: n in open ==> best.CompareTo(n) >= 0
  }

  /** Every non-empty open set has a node that ranks first. */
  lemma {:induction false} FirstExists(open: set<Node>)
    requires open != {}
    ensures exists best :: best in open && RanksFirst(best, open)
  {
    var x :| x in open;
    CompareToTotal(x, x);
    if open == {x} {
      assert RanksFirst(x, open);
    } else {
      var rest := open - {x};
      FirstExists(rest);
      var b :| b in rest && RanksFirst(b, rest);
      CompareToTotal(b, x);
      if b.CompareTo(x) >= 0 {
        assert RanksFirst(b, open);
      } else {
        forall n | n in open
          ensures x.CompareTo(n) >= 0
        {
          if n != x {
            CompareToTransitive(x, b, n);
          }
        }
        assert RanksFirst(x, open);
      }
    }
  }

  /** Removes and returns a node of highest priority: lowest fCost, ties broken by lowest hCost. */
  method RemoveFirst(open: set<Node>) returns (first: Node, rest: set<Node>)
    requires open != {}
    ensures first in open && rest == open - {first}
    ensures forall n :: n in open ==> first.FCost() < n.FCost()
                                       || (first.FCost() == n.FCost() && first.hCost <= n.hCost)
  {
    FirstExists(open);
    first :| first in open && RanksFirst(first, open);
    rest := open - {first};
  }
}
