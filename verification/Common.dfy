/** Small vocabulary shared by the other modules. */
module Common {

  datatype Option<+T> = None | Some(value: T)

  datatype Result<+T, +E> = Ok(value: T) | Err(error: E)

  /** The rows are exactly the elements of `s`, each once, in some order. */
  ghost predicate Lists<T>(rows: seq<T>, s: set<T>) {
    && (forall i, j :: 0 <= i < j < |rows| ==> rows[i] != rows[j])
    && (set x | x in rows) == s
  }

  /** A query answer, or the iteration of a Go map: every element once, in an order
      that nothing downstream may rely on. */
  method InSomeOrder<T(==)>(s: set<T>) returns (rows: seq<T>)
    ensures Lists(rows, s)
  {
    rows := [];
    var rest := s;
    while rest != {}
      invariant rest <= s
      invariant Lists(rows, s - rest)
      decreases rest
    {
      var x :| x in rest;
      ghost var before := rows;
      rows := rows + [x];
      rest := rest - {x};
      assert (set y | y in rows) == (set y | y in before) + {x};
      assert s - rest == (set y | y in before) + {x};
    }
  }
}
