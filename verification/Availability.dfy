/** Batches of node availabilities, and the single UPDATE statement that stores one. */
module Availability {
  import opened Prelude

  datatype Update = Update(id: int, availability: real)

  type Table = map<int, real>

  // ----- what a batch means

  /** The update that the first WHEN for `id` carries. */
  function First(us: seq<Update>, id: int): (r: Option<real>)
    ensures r.None? <==> forall u :: u in us ==> u.id != id
    ensures r.Some? ==> Update(id, r.value) in us
  {
    if us == [] then None
    else if us[0].id == id then Some(us[0].availability)
    else First(us[1..], id)
  }

  function Last(us: seq<Update>, id: int): (r: Option<real>)
    ensures r.None? <==> forall u :: u in us ==> u.id != id
    ensures r.Some? ==> Update(id, r.value) in us
  {
    if us == [] then None
    else if us[|us| - 1].id == id then Some(us[|us| - 1].availability)
    else Last(us[..|us| - 1], id)
  }

  function Or(o: Option<real>, otherwise: real): real {
    if o.Some? then o.value else otherwise
  }

  /** One row update; a missing row stays missing. */
  function Apply(t: Table, u: Update): Table {
    if u.id in t then t[u.id := u.availability] else t
  }

  function ApplyAll(t: Table, us: seq<Update>): Table {
    if us == [] then t
    else Apply(ApplyAll(t, us[..|us| - 1]), us[|us| - 1])
  }

  lemma {:induction false} ApplyAllIsLast(t: Table, us: seq<Update>)
    ensures ApplyAll(t, us) == map id | id in t :: Or(Last(us, id), t[id])
    decreases |us|
  {
    if us != [] {
      ApplyAllIsLast(t, us[..|us| - 1]);
    }
  }

  /** Every listed row gets the first value listed for it. */
  function Overwritten(us: seq<Update>, t: Table): Table {
    map id | id in t :: Or(First(us, id), t[id])
  }

  predicate DistinctIds(us: seq<Update>) {
    forall i, j :: 0 <= i < j < |us| ==> us[i].id != us[j].id
  }

  /** With one update per node, lookup is membership, whichever end it starts from. */
  lemma LookupIsMembership(us: seq<Update>, id: int, a: real)
    requires DistinctIds(us)
    ensures First(us, id) == Some(a) <==> Update(id, a) in us
    ensures Last(us, id) == Some(a) <==> Update(id, a) in us
  {
    if Update(id, a) in us {
      var i :| 0 <= i < |us| && us[i] == Update(id, a);
      var f, l := First(us, id), Last(us, id);
      var j :| 0 <= j < |us| && us[j] == Update(id, f.value);
      var k :| 0 <= k < |us| && us[k] == Update(id, l.value);
    }
  }

  // ----- the generated statement

  datatype Arg = Id(id: int) | Value(availability: real)

  /** Statement text, with each `?` kept apart from the fixed SQL around it. */
  datatype Token = Sql(text: string) | Mark

  const UPDATE: Token := Sql("UPDATE service_nodes SET availability = CASE id ")
  const WHEN: seq<Token> := [Sql("WHEN "), Mark, Sql(" THEN "), Mark]
  const WHERE: seq<Token> := [Sql(" END WHERE id IN ("), Mark]
  const COMMA: seq<Token> := [Sql(", "), Mark]

  function Join(parts: seq<seq<Token>>, sep: seq<Token>): seq<Token> {
    if parts == [] then []
    else if |parts| == 1 then parts[0]
    else parts[0] + sep + Join(parts[1..], sep)
  }

  function Repeat(s: seq<Token>, n: nat): seq<Token> {
    if n == 0 then [] else s + Repeat(s, n - 1)
  }

  function Whens(n: nat): (r: seq<seq<Token>>)
    ensures |r| == n
  {
    seq(n, i => WHEN)
  }

  function Query(n: nat): seq<Token>
    requires n > 0
  {
    [UPDATE] + Join(Whens(n), [Sql(" ")]) + WHERE + Repeat(COMMA, n - 1) + [Sql(")")]
  }

  /** The arguments in placeholder order: (id, availability) pairs, then the ids. */
  predicate Binds(args: seq<Arg>, us: seq<Update>) {
    && |args| == 3 * |us|
    && forall i :: 0 <= i < |us| ==>
         && args[2 * i] == Id(us[i].id)
         && args[2 * i + 1] == Value(us[i].availability)
         && args[2 * |us| + i] == Id(us[i].id)
  }

  /** SQL meaning of `CASE id WHEN a0 THEN a1 WHEN a2 THEN a3 ... END` from the
      k-th WHEN on; None is NULL. */
  function Case(args: seq<Arg>, n: nat, id: int, k: nat): Option<real>
    requires 2 * n <= |args| && k <= n
    decreases n - k
  {
    if k == n then None
    else if args[2 * k] == Id(id) && args[2 * k + 1].Value? then Some(args[2 * k + 1].availability)
    else Case(args, n, id, k + 1)
  }

  /** The shape of a statement that parses: how many WHENs and how many ids. */
  datatype Shape = Shape(whens: nat, ids: nat)

  /** `WHEN ? THEN ?`, once or more, with a space between: how many, and what
      follows them. */
  function ParseWhens(ts: seq<Token>, n: nat): Option<(nat, seq<Token>)>
    decreases |ts|
  {
    if |ts| < 4 || ts[..4] != WHEN then None
    else if |ts| > 4 && ts[4] == Sql(" ") then ParseWhens(ts[5..], n + 1)
    else Some((n + 1, ts[4..]))
  }

  /** `, ?` any number of times. */
  function ParseIds(ts: seq<Token>, n: nat): (nat, seq<Token>)
    decreases |ts|
  {
    if |ts| < 2 || ts[..2] != COMMA then (n, ts) else ParseIds(ts[2..], n + 1)
  }

  /** The statement text read as SQL; None is a syntax error. */
  function Parse(ts: seq<Token>): Option<Shape> {
    if ts == [] || ts[0] != UPDATE then None
    else
      var w := ParseWhens(ts[1..], 0);
      if w.None? || |w.value.1| < 2 || w.value.1[..2] != WHERE then None
      else
        var i := ParseIds(w.value.1[2..], 1);
        if i.1 == [Sql(")")] then Some(Shape(w.value.0, i.0)) else None
  }

  function Assigned(args: seq<Arg>, n: nat, t: Table): map<int, Option<real>>
    requires 2 * n <= |args|
  {
    map id | id in t :: if Id(id) in args[2 * n..] then Case(args, n, id, 0) else Some(t[id])
  }

  /** What the database does with a statement and its arguments: None for text that
      does not parse or a wrong number of arguments; otherwise the rows in the IN
      list take the value of the CASE and the others keep theirs. */
  function Execute(query: seq<Token>, args: seq<Arg>, t: Table): Option<map<int, Option<real>>> {
    var p := Parse(query);
    if p.None? || |args| != 2 * p.value.whens + p.value.ids then None
    else Some(Assigned(args, p.value.whens, t))
  }

  lemma {:induction false} ParsesWhens(m: nat, n: nat, rest: seq<Token>)
    requires m > 0 && (rest == [] || rest[0] != Sql(" "))
    ensures ParseWhens(Join(Whens(m), [Sql(" ")]) + rest, n) == Some((n + m, rest))
    decreases m
  {
    var all := Join(Whens(m), [Sql(" ")]) + rest;
    if m == 1 {
      assert all == WHEN + rest;
      assert all[..4] == WHEN && all[4..] == rest;
    } else {
      var tail := Join(Whens(m - 1), [Sql(" ")]) + rest;
      assert Whens(m)[1..] == Whens(m - 1);
      assert all == WHEN + [Sql(" ")] + tail;
      assert all[..4] == WHEN && all[4] == Sql(" ") && all[5..] == tail;
      ParsesWhens(m - 1, n + 1, rest);
    }
  }

  lemma {:induction false} ParsesIds(m: nat, n: nat)
    ensures ParseIds(Repeat(COMMA, m) + [Sql(")")], n) == (n + m, [Sql(")")])
    decreases m
  {
    var all := Repeat(COMMA, m) + [Sql(")")];
    if m == 0 {
      assert all == [Sql(")")];
    } else {
      var tail := Repeat(COMMA, m - 1) + [Sql(")")];
      assert all == COMMA + tail;
      assert all[..2] == COMMA && all[2..] == tail;
      ParsesIds(m - 1, n + 1);
    }
  }

  /** The generated text is a statement with as many WHENs and ids as updates. */
  lemma QueryParses(n: nat)
    requires n > 0
    ensures Parse(Query(n)) == Some(Shape(n, n))
  {
    hide ParseWhens, ParseIds, Join, Repeat;
    var ids := Repeat(COMMA, n - 1) + [Sql(")")];
    var rest := WHERE + ids;
    ParsesWhens(n, 0, rest);
    ParsesIds(n - 1, 1);
    assert Query(n) == [UPDATE] + (Join(Whens(n), [Sql(" ")]) + rest);
    assert Query(n)[1..] == Join(Whens(n), [Sql(" ")]) + rest;
    assert rest[..2] == WHERE && rest[2..] == ids;
  }

  /** The statement and its arguments for two nodes, written out. */
  lemma TwoNodes(a: Update, b: Update, args: seq<Arg>)
    ensures Query(2) == [Sql("UPDATE service_nodes SET availability = CASE id "),
                         Sql("WHEN "), Mark, Sql(" THEN "), Mark, Sql(" "), Sql("WHEN "), Mark, Sql(" THEN "), Mark,
                         Sql(" END WHERE id IN ("), Mark, Sql(", "), Mark, Sql(")")]
    ensures Binds(args, [a, b]) <==>
            args == [Id(a.id), Value(a.availability), Id(b.id), Value(b.availability), Id(a.id), Id(b.id)]
  {
    TwoWhens();
    TwoBound(a, b, args);
  }

  lemma TwoWhens()
    ensures Query(2) == [UPDATE] + (WHEN + [Sql(" ")] + WHEN) + WHERE + COMMA + [Sql(")")]
  {
    assert Whens(2) == [WHEN, WHEN] && [WHEN, WHEN][1..] == [WHEN];
    assert Repeat(COMMA, 1) == COMMA;
  }

  lemma TwoBound(a: Update, b: Update, args: seq<Arg>)
    ensures Binds(args, [a, b]) <==>
            args == [Id(a.id), Value(a.availability), Id(b.id), Value(b.availability), Id(a.id), Id(b.id)]
  {
    var us := [a, b];
    assert us[0] == a && us[1] == b;
    if Binds(args, us) {
      assert args[2 * 0] == Id(us[0].id) && args[2 * 1] == Id(us[1].id);
      assert args[2 * |us| + 0] == Id(us[0].id) && args[2 * |us| + 1] == Id(us[1].id);
    }
  }

  lemma {:induction false} CaseIsFirst(args: seq<Arg>, us: seq<Update>, id: int, k: nat)
    requires Binds(args, us) && k <= |us|
    ensures Case(args, |us|, id, k) == First(us[k..], id)
    decreases |us| - k
  {
    if k < |us| {
      CaseIsFirst(args, us, id, k + 1);
      assert us[k..][1..] == us[k + 1..];
      assert us[k..][0] == us[k];
    }
  }

  lemma Listed(args: seq<Arg>, us: seq<Update>, id: int)
    requires Binds(args, us)
    ensures Id(id) in args[2 * |us|..] <==> First(us, id).Some?
  {
    var ins := args[2 * |us|..];
    forall i | 0 <= i < |us| ensures ins[i] == Id(us[i].id) {
      assert args[2 * |us| + i] == Id(us[i].id);
    }
    if First(us, id).Some? {
      var i :| 0 <= i < |us| && us[i] == Update(id, First(us, id).value);
      assert ins[i] == Id(id);
    }
  }

  function Rows(t: Table): map<int, Option<real>> {
    map id | id in t :: Some(t[id])
  }

  /** The generated statement as SQL, for every batch: it parses, takes exactly its
      arguments, never writes NULL, gives a listed row the first value queued for
      it, and touches no other row. */
  lemma StatementMeaning(args: seq<Arg>, us: seq<Update>, t: Table)
    requires us != [] && Binds(args, us)
    ensures Execute(Query(|us|), args, t) == Some(Rows(Overwritten(us, t)))
  {
    hide Parse, Query, Case;
    QueryParses(|us|);
    var got, want := Assigned(args, |us|, t), Rows(Overwritten(us, t));
    forall id | id in t ensures got[id] == want[id] {
      CaseIsFirst(args, us, id, 0);
      assert us[0..] == us;
      Listed(args, us, id);
    }
    assert got == want;
  }

  /** Exactly when the statement is the same as applying the batch in order. */
  lemma StatementVersusSequential(args: seq<Arg>, us: seq<Update>, t: Table)
    requires us != [] && Binds(args, us)
    ensures Execute(Query(|us|), args, t) == Some(Rows(ApplyAll(t, us)))
            <==> forall id :: id in t ==> First(us, id) == Last(us, id)
  {
    hide Execute, Query;
    StatementMeaning(args, us, t);
    ApplyAllIsLast(t, us);
    var e, r := Rows(Overwritten(us, t)), Rows(ApplyAll(t, us));
    if e == r {
      forall id | id in t ensures First(us, id) == Last(us, id) {
        assert e[id] == r[id];
      }
    }
    if forall id :: id in t ==> First(us, id) == Last(us, id) {
      assert Overwritten(us, t) == ApplyAll(t, us);
    }
  }

  /** A batch has one entry per node, so the statement is the same as applying
      its updates one by one in any order. */
  lemma StatementIsAnyOrder(args: seq<Arg>, us: seq<Update>, vs: seq<Update>, t: Table)
    requires us != [] && Binds(args, us) && DistinctIds(us)
    requires multiset(us) == multiset(vs)
    ensures Execute(Query(|us|), args, t) == Some(Rows(ApplyAll(t, vs)))
  {
    hide Execute, Query;
    StatementMeaning(args, us, t);
    ApplyAllIsLast(t, vs);
    forall id | id in t ensures First(us, id) == Last(vs, id) {
      SameMembers(us, vs);
      var f, l := First(us, id), Last(vs, id);
      if l.Some? {
        LookupIsMembership(us, id, l.value);
      } else {
        assert forall a :: Update(id, a) in us <==> Update(id, a) in vs;
      }
    }
    assert Overwritten(us, t) == ApplyAll(t, vs);
  }

  lemma SameMembers(us: seq<Update>, vs: seq<Update>)
    requires multiset(us) == multiset(vs)
    ensures forall u :: u in us <==> u in vs
  {
    forall u ensures u in us <==> u in vs {
      assert u in us <==> u in multiset(us);
      assert u in vs <==> u in multiset(vs);
    }
  }

  /** Occurrences of the placeholder. */
  function Marks(s: seq<Token>): nat {
    multiset(s)[Mark]
  }

  lemma MarksConcat(a: seq<Token>, b: seq<Token>)
    ensures Marks(a + b) == Marks(a) + Marks(b)
  {
  }

  lemma {:induction false} MarksRepeat(n: nat, s: string)
    ensures Marks(Repeat([Sql(s), Mark], n)) == n
  {
    if n > 0 {
      MarksRepeat(n - 1, s);
      MarksConcat([Sql(s), Mark], Repeat([Sql(s), Mark], n - 1));
    }
  }

  lemma JoinWhens(n: nat, sep: seq<Token>)
    requires n > 0
    ensures Join(Whens(n), sep) == if n == 1 then WHEN else WHEN + sep + Join(Whens(n - 1), sep)
  {
    assert Whens(n)[1..] == Whens(n - 1);
  }

  lemma {:induction false} MarksJoin(n: nat, s: string)
    requires n > 0
    ensures Marks(Join(Whens(n), [Sql(s)])) == 2 * n
  {
    assert Marks(WHEN) == 2 && Marks([Sql(s)]) == 0;
    hide Join, Marks, Whens;
    JoinWhens(n, [Sql(s)]);
    if n > 1 {
      MarksJoin(n - 1, s);
      MarksConcat(WHEN, [Sql(s)]);
      MarksConcat(WHEN + [Sql(s)], Join(Whens(n - 1), [Sql(s)]));
    }
  }

  /** The statement has exactly as many placeholders as there are arguments. */
  lemma PlaceholdersMatchArguments(args: seq<Arg>, us: seq<Update>)
    requires us != [] && Binds(args, us)
    ensures Marks(Query(|us|)) == |args|
  {
    MarksJoin(|us|, " ");
    MarksRepeat(|us| - 1, ", ");
  }

  /** The `service_nodes` table and the statement that updates it. */
  class NodeTable {
    var rows: Table

    constructor (rows: Table)
      ensures this.rows == rows
    {
      this.rows := rows;
    }

    /** Builds the statement text and its arguments the way the loop does; run on
        any table, they give every listed row its first value and keep the rest. */
    static method BuildStatement(updates: seq<Update>) returns (query: seq<Token>, args: seq<Arg>)
      requires updates != []
      ensures query == Query(|updates|) && Parse(query) == Some(Shape(|updates|, |updates|))
      ensures Binds(args, updates)
      ensures forall t :: Execute(query, args, t) == Some(Rows(Overwritten(updates, t)))
    {
      var cases: seq<seq<Token>> := [];
      var ids: seq<int> := [];
      args := [];
      for i := 0 to |updates|
        invariant cases == Whens(i)
        invariant |ids| == i && forall j :: 0 <= j < i ==> ids[j] == updates[j].id
        invariant |args| == 2 * i
        invariant forall j :: 0 <= j < i ==>
                    args[2 * j] == Id(updates[j].id) && args[2 * j + 1] == Value(updates[j].availability)
      {
        cases := cases + [WHEN];
        ids := ids + [updates[i].id];
        args := args + [Id(updates[i].id), Value(updates[i].availability)];
      }
      query := [Sql("UPDATE service_nodes SET availability = CASE id ")] + Join(cases, [Sql(" ")])
      + [Sql(" END WHERE id IN ("), Mark] + Repeat([Sql(", "), Mark], |ids| - 1) + [Sql(")")];
      args := args + seq(|ids|, i requires 0 <= i < |ids| => Id(ids[i]));
      hide Execute, Parse;
      QueryParses(|updates|);
      forall t ensures Execute(query, args, t) == Some(Rows(Overwritten(updates, t))) {
        StatementMeaning(args, updates, t);
      }
    }

    /** `fails` stands for the database refusing the statement. */
    method UpdateNodeAvailability(updates: seq<Update>, fails: bool) returns (ok: bool)
      modifies this
      ensures ok <==> updates == [] || !fails
      ensures rows == if ok then Overwritten(updates, old(rows)) else old(rows)
    {
      hide Execute, Parse;
      if updates == [] {
        assert rows == Overwritten(updates, rows);
        return true;
      }
      var query, args := BuildStatement(updates);
      var result := Execute(query, args, rows);
      ok := !fails && result.Some?;
      if ok {
        rows := map id | id in result.value :: Or(result.value[id], 0.0);
        assert rows == Overwritten(updates, old(rows));
      }
    }
  }

  // ----- batches

  /** A batch lists the queue, each node once, in any order. */
  predicate Enumerates(us: seq<Update>, q: map<int, real>) {
    && DistinctIds(us)
    && (forall u :: u in us ==> u.id in q && q[u.id] == u.availability)
    && (forall id :: id in q ==> Update(id, q[id]) in us)
  }
}
