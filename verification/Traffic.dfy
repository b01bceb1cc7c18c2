/** Uploads and downloads as pairs, and their sums over finite sets. */
module Traffic {
  datatype Pair = Pair(u: int, d: int)

  const ZERO := Pair(0, 0)

  function Plus(a: Pair, b: Pair): Pair {
    Pair(a.u + b.u, a.d + b.d)
  }

  function Minus(a: Pair, b: Pair): Pair {
    Pair(a.u - b.u, a.d - b.d)
  }

  function Get(m: map<int, Pair>, k: int): Pair {
    if k in m then m[k] else ZERO
  }

  ghost function Sum<K(!new)>(keys: set<K>, f: K -> Pair): Pair {
    if keys == {} then ZERO
    else
      var k :| k in keys;
      Plus(f(k), Sum(keys - {k}, f))
  }

  lemma {:induction false} PlusSwaps(a: Pair, b: Pair, c: Pair)
    ensures Plus(a, Plus(b, c)) == Plus(b, Plus(a, c))
  {
  }

  lemma {:induction false} PlusAssociates(a: Pair, b: Pair, c: Pair)
    ensures Plus(Plus(a, b), c) == Plus(a, Plus(b, c))
  {
  }

  lemma {:induction false} PlusZero(a: Pair)
    ensures Plus(a, ZERO) == a
  {
  }

  lemma {:induction false} PlusRegroups(a: Pair, b: Pair, c: Pair, d: Pair)
    ensures Plus(Plus(a, b), Plus(c, d)) == Plus(Plus(a, c), Plus(b, d))
  {
  }

  /** The sum may be started with any member. */
  lemma {:induction false} SumTakes<K(!new)>(keys: set<K>, f: K -> Pair, k: K)
    requires k in keys
    ensures Sum(keys, f) == Plus(f(k), Sum(keys - {k}, f))
    decreases |keys|
  {
    var first :| first in keys && Sum(keys, f) == Plus(f(first), Sum(keys - {first}, f));
    if first != k {
      var rest := keys - {first} - {k};
      SumTakes(keys - {first}, f, k);
      assert Sum(keys - {first}, f) == Plus(f(k), Sum(rest, f));
      SumTakes(keys - {k}, f, first);
      assert keys - {k} - {first} == rest;
      assert Sum(keys - {k}, f) == Plus(f(first), Sum(rest, f));
      PlusSwaps(f(first), f(k), Sum(rest, f));
    }
  }

  lemma {:induction false} SumAdds<K(!new)>(keys: set<K>, f: K -> Pair, k: K)
    requires k !in keys
    ensures Sum(keys + {k}, f) == Plus(Sum(keys, f), f(k))
  {
    SumTakes(keys + {k}, f, k);
    assert keys + {k} - {k} == keys;
  }

  /** The next key of an iteration in no particular order. */
  method Pick<K(==)>(todo: set<K>) returns (k: K)
    requires todo != {}
    ensures k in todo
  {
    k :| k in todo;
  }

  lemma {:induction false} SumOfNone<K(!new)>(f: K -> Pair)
    ensures Sum({}, f) == ZERO
  {
  }

  lemma {:induction false} SumSame<K(!new)>(keys: set<K>, f: K -> Pair, g: K -> Pair)
    requires forall k :: k in keys ==> f(k) == g(k)
    ensures Sum(keys, f) == Sum(keys, g)
    decreases |keys|
  {
    if keys != {} {
      var k :| k in keys;
      SumTakes(keys, f, k);
      SumTakes(keys, g, k);
      SumSame(keys - {k}, f, g);
    }
  }

  lemma {:induction false} SumOfSums<K(!new)>(keys: set<K>, f: K -> Pair, g: K -> Pair, h: K -> Pair)
    requires forall k :: k in keys ==> h(k) == Plus(f(k), g(k))
    ensures Sum(keys, h) == Plus(Sum(keys, f), Sum(keys, g))
    decreases |keys|
  {
    if keys != {} {
      var k :| k in keys;
      hide Sum, Plus;
      var rest := keys - {k};
      SumTakes(keys, f, k);
      SumTakes(keys, g, k);
      SumTakes(keys, h, k);
      SumOfSums(rest, f, g, h);
      PlusRegroups(f(k), g(k), Sum(rest, f), Sum(rest, g));
    }
  }

  /** Members that contribute nothing may be left out. */
  lemma {:induction false} SumOver<K(!new)>(few: set<K>, many: set<K>, f: K -> Pair)
    requires few <= many && forall k :: k in many - few ==> f(k) == ZERO
    ensures Sum(few, f) == Sum(many, f)
    decreases |many|
  {
    var rest := many - few;
    if rest == {} {
      assert few == many;
    } else {
      var k :| k in rest;
      SumTakes(many, f, k);
      SumOver(few, many - {k}, f);
    }
  }

  /** The sum of a dictionary's values. */
  ghost function Total(m: map<int, Pair>): Pair {
    Sum(m.Keys, k => Get(m, k))
  }

  lemma {:induction false} TotalGrows(m: map<int, Pair>, k: int, more: Pair)
    ensures Total(m[k := Plus(Get(m, k), more)]) == Plus(Total(m), more)
  {
    var n := m[k := Plus(Get(m, k), more)];
    var f, g := (x: int) => Get(m, x), (x: int) => Get(n, x);
    var rest := m.Keys - {k};
    assert n.Keys - {k} == rest;
    SumTakes(n.Keys, g, k);
    SumSame(rest, f, g);
    if k in m {
      SumTakes(m.Keys, f, k);
    } else {
      assert rest == m.Keys;
    }
  }
}

/** The counters of one relay: traffic of known users, and traffic not attributed yet. */
module RelayCounters {
  import opened Traffic

  /** A user, as the number that the four bytes of its identifier encode. */
  type Uid = int

  datatype User = Unknown | Known(uid: Uid)

  datatype Add = Add(user: User, transfer: nat)

  /** Whose bill entry `i` goes on: the user it names, or else the next user named after it. */
  function Payer(adds: seq<Add>, i: nat): User
    requires i <= |adds|
    decreases |adds| - i
  {
    if i == |adds| then Unknown else if adds[i].user != Unknown then adds[i].user else Payer(adds, i + 1)
  }

  /** What the first `k` entries put on the bill of `who`. */
  function Billed(adds: seq<Add>, k: nat, who: User): nat
    requires k <= |adds|
  {
    if k == 0 then 0
    else Billed(adds, k - 1, who) + (if Payer(adds, k - 1) == who then adds[k - 1].transfer else 0)
  }

  function Added(adds: seq<Add>): nat {
    if adds == [] then 0 else Added(adds[..|adds| - 1]) + adds[|adds| - 1].transfer
  }

  lemma {:induction false} PayerAppends(adds: seq<Add>, more: Add, i: nat)
    requires i <= |adds|
    ensures Payer(adds + [more], i) == if Payer(adds, i) == Unknown then more.user else Payer(adds, i)
    decreases |adds| - i
  {
    if i < |adds| && adds[i].user == Unknown {
      PayerAppends(adds, more, i + 1);
    } else if i == |adds| {
      assert Payer(adds + [more], i + 1) == Unknown;
    }
  }

  lemma {:induction false} BilledAppends(adds: seq<Add>, more: Add, k: nat, who: User)
    requires k <= |adds|
    ensures Billed(adds + [more], k, who) ==
            if more.user == Unknown then Billed(adds, k, who)
            else if who == Unknown then 0
            else if who == more.user then Billed(adds, k, who) + Billed(adds, k, Unknown)
            else Billed(adds, k, who)
  {
    if k > 0 {
      BilledAppends(adds, more, k - 1, who);
      PayerAppends(adds, more, k - 1);
    }
  }

  /** Every byte is on exactly one bill: over any set of users that covers the payers. */
  lemma {:induction false} BillsCoverAll(adds: seq<Add>, k: nat, users: set<Uid>)
    requires k <= |adds|
    requires forall i :: 0 <= i < k && adds[i].user.Known? ==> adds[i].user.uid in users
    requires forall i :: 0 <= i < k && Payer(adds, i).Known? ==> Payer(adds, i).uid in users
    ensures Sum(users, (uid: Uid) => Pair(Billed(adds, k, Known(uid)), 0)).u + Billed(adds, k, Unknown) == Added(adds[..k])
    decreases k
  {
    var now := (uid: Uid) => Pair(Billed(adds, k, Known(uid)), 0);
    if k == 0 {
      SumSame(users, now, (uid: Uid) => ZERO);
      SumOver({}, users, (uid: Uid) => ZERO);
      assert adds[..0] == [];
    } else {
      BillsCoverAll(adds, k - 1, users);
      var before := (uid: Uid) => Pair(Billed(adds, k - 1, Known(uid)), 0);
      var payer := Payer(adds, k - 1);
      assert adds[..k][..k - 1] == adds[..k - 1];
      if payer == Unknown {
        SumSame(users, before, now);
      } else {
        SumTakes(users, before, payer.uid);
        SumTakes(users, now, payer.uid);
        SumSame(users - {payer.uid}, before, now);
      }
    }
  }

  lemma {:induction false} PayerIsNamed(adds: seq<Add>, i: nat)
    requires i <= |adds| && Payer(adds, i).Known?
    ensures exists j :: i <= j < |adds| && adds[j].user == Payer(adds, i)
    decreases |adds| - i
  {
    if adds[i].user == Unknown {
      PayerIsNamed(adds, i + 1);
    }
  }

  /** The unattributed bytes and the bills of all users add up to what was added. */
  lemma {:induction false} BytesAreConserved(adds: seq<Add>, users: set<Uid>)
    requires forall i :: 0 <= i < |adds| && adds[i].user.Known? ==> adds[i].user.uid in users
    ensures Sum(users, (uid: Uid) => Pair(Billed(adds, |adds|, Known(uid)), 0)).u + Billed(adds, |adds|, Unknown) ==
            Added(adds)
  {
    forall i | 0 <= i < |adds| && Payer(adds, i).Known?
      ensures Payer(adds, i).uid in users
    {
      PayerIsNamed(adds, i);
    }
    BillsCoverAll(adds, |adds|, users);
    assert adds[..|adds|] == adds;
  }

  /** TCPRelay and UDPRelay count alike; one instance for each direction of add_transfer_u and _d. */
  class Counter {
    var transfer: nat
    var users: map<Uid, nat>

    /** The counters show what a history of additions makes them. */
    ghost predicate Shows(adds: seq<Add>)
      reads this
    {
      && transfer == Billed(adds, |adds|, Unknown)
      && (forall uid :: uid in users ==> users[uid] == Billed(adds, |adds|, Known(uid)))
      && (forall uid :: uid !in users ==> Billed(adds, |adds|, Known(uid)) == 0)
      && (forall i :: 0 <= i < |adds| && adds[i].user.Known? ==> adds[i].user.uid in users)
    }

    constructor ()
      ensures Shows([]) && users == map[]
    {
      transfer, users := 0, map[];
    }

    method AddTransfer(user: User, amount: nat, ghost adds: seq<Add>)
      requires Shows(adds)
      modifies this
      ensures Shows(adds + [Add(user, amount)])
      ensures users.Keys == old(users).Keys + if user.Known? then {user.uid} else {}
    {
      ghost var more := Add(user, amount);
      ghost var now := adds + [more];
      PayerAppends(adds, more, |adds|);
      forall who
        ensures Billed(now, |adds|, who) ==
                if user == Unknown then Billed(adds, |adds|, who)
                else if who == Unknown then 0
                else if who == user then Billed(adds, |adds|, who) + Billed(adds, |adds|, Unknown)
                else Billed(adds, |adds|, who)
      {
        BilledAppends(adds, more, |adds|, who);
      }
      if user == Unknown {
        transfer := transfer + amount;
      } else {
        if user.uid !in users {
          users := users[user.uid := 0];
        }
        users := users[user.uid := users[user.uid] + amount + transfer];
        transfer := 0;
      }
    }
  }
}
