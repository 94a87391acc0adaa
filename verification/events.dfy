/**
  The notifications a traversal sends to its observers. Every registered
  observer receives the same calls in the same order, so a traversal is
  modelled as returning the one sequence of events they all see.
 */
module Events {
  import opened Wrappers

  datatype Event<V> =
    | BFSBegun                                   // notifyBFSHasBegun
    | DFSBegun                                   // notifyDFSHasBegun
    | DijkstraBegun                              // notifyDijkstraHasBegun
    | Visit(vertex: V)                           // notifyVisit
    | SearchOver                                 // notifySearchIsOver
    | Finished(vertex: V, cost: Option<nat>)     // notifyDijkstraVertexFinished; None is an infinite cost
    | DijkstraOver(path: Option<seq<V>>)         // notifyDijkstraIsOver; None when the end is unreachable
}
