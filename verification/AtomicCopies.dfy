/** Copies of one key onto another, each atomic, run in any order over one store. */
module AtomicCopies {
  datatype Move = Move(from: string, to: string)

  type Store<V> = map<string, V>

  /** A move whose source is missing copies nothing. */
  function Apply<V>(st: Store<V>, m: Move): Store<V>
  {
    if m.from in st then st[m.to := st[m.from]] else st
  }

  function ApplyAll<V>(st: Store<V>, ms: seq<Move>): Store<V>
  {
    if ms == [] then st else Apply(ApplyAll(st, ms[..|ms| - 1]), ms[|ms| - 1])
  }

  /** No move writes what another reads or writes; a move onto itself is allowed. */
  predicate Independent(ms: set<Move>)
  {
    forall a, b :: a in ms && b in ms && (a.to == b.from || a.to == b.to) ==> a == b
  }

  /** st' is st with every destination holding its source's original value and nothing else changed. */
  ghost predicate CopiedExactly<V>(st: Store<V>, st': Store<V>, ms: set<Move>)
  {
    && (forall m :: m in ms ==> m.from in st && m.to in st' && st'[m.to] == st[m.from])
    && (forall k :: (forall m :: m in ms ==> m.to != k) ==> (k in st' <==> k in st) && (k in st ==> st'[k] == st[k]))
  }

  /** That description leaves no freedom. */
  lemma CopiedUniquely<V>(st: Store<V>, a: Store<V>, b: Store<V>, ms: set<Move>)
    requires CopiedExactly(st, a, ms) && CopiedExactly(st, b, ms)
    ensures a == b
  {
    forall k
      ensures k in a <==> k in b
      ensures k in a && k in b ==> a[k] == b[k]
    {
      if exists m :: m in ms && m.to == k {
        var m :| m in ms && m.to == k;
      }
    }
  }

  /** One more independent copy extends what was copied by exactly that move, whatever came before. */
  lemma CopyStep<V>(st: Store<V>, now: Store<V>, done: set<Move>, m: Move)
    requires CopiedExactly(st, now, done) && Independent(done + {m}) && m.from in st
    ensures m.from in now && now[m.from] == st[m.from]
    ensures CopiedExactly(st, Apply(now, m), done + {m})
  {
    if exists a :: a in done && a.to == m.from {
      var a :| a in done && a.to == m.from;
      assert a in done + {m} && m in done + {m};
    }
    var next := Apply(now, m);
    forall a | a in done + {m}
      ensures a.from in st && a.to in next && next[a.to] == st[a.from]
    {
      if a != m {
        assert m in done + {m};
      }
    }
    forall k | forall a :: a in done + {m} ==> a.to != k
      ensures (k in next <==> k in st) && (k in st ==> next[k] == st[k])
    {
      assert m in done + {m};
      assert forall a :: a in done ==> a in done + {m};
    }
  }

  function Moves(ms: seq<Move>): set<Move> { set m | m in ms }

  /** Every order of independent copies, and every repetition, ends with exactly those copied. */
  lemma {:induction false} AnyOrderCopiesExactly<V>(st: Store<V>, ms: seq<Move>)
    requires Independent(Moves(ms)) && forall m :: m in ms ==> m.from in st
    ensures CopiedExactly(st, ApplyAll(st, ms), Moves(ms))
  {
    if ms != [] {
      var front, m := ms[..|ms| - 1], ms[|ms| - 1];
      assert ms == front + [m];
      assert Moves(ms) == Moves(front) + {m};
      AnyOrderCopiesExactly(st, front);
      CopyStep(st, ApplyAll(st, front), Moves(front), m);
    }
  }
}
