/** Planning a query and running its plan. */
module QueryRun {
  import opened Plans
  import opened Placing
  import opened Queries
  import opened Planner
  import opened PlanRun

  lemma {:induction false} PlacedApart(p: Plan)
    requires JoinsPlaced(p)
    ensures Apart(p)
  {
    match p
    case Scan(_, _) =>
    case Join(l, r, _) =>
      PlacedApart(l);
      PlacedApart(r);
  }

  lemma OnlyGiven(sch: Schema, db: Database, p: Plan, out: seq<Row>, envs: seq<Env>, tables: seq<string>, cs: seq<Cond>)
    requires Output(sch, db, p, out, envs) && Filters(sch, db, p, tables, cs)
    ensures forall env :: env in envs ==> Fits(db, env, TableSet(tables)) && AllHold(sch, db, env, cs)
    ensures Covers(sch, db, p, envs) ==>
              forall env :: Fits(db, env, TableSet(tables)) && AllHold(sch, db, env, cs) ==> env in envs
  {
    hide Gives, Fits, AllHold;
  }

  /** The rows handed out are choices that meet the conditions as read, each once, and they are all of
      them if no join has to be read twice. If these conditions mean those of the query, this is its
      result. If a name is not found, nothing comes out. */
  method RunQuery(sch: Schema, db: Database, tables: seq<string>, conds: seq<Cond>)
    returns (p: Plan, out: seq<Row>, ghost envs: seq<Env>)
    requires ForQuery(tables, conds) && Declared(sch, tables, conds) && Typed(sch, db)
    ensures Arranged(sch, p, tables, conds) && Output(sch, db, p, out, envs)
    ensures !Findable(sch, tables, conds) ==> out == []
    ensures Findable(sch, tables, conds) ==>
              forall env :: env in envs ==>
                Fits(db, env, TableSet(tables)) && AllHold(sch, db, env, AsRead(sch, tables, conds))
    ensures Findable(sch, tables, conds) && Whole(sch, db, p) ==>
              forall env :: Fits(db, env, TableSet(tables)) && AllHold(sch, db, env, AsRead(sch, tables, conds)) ==>
                env in envs
    ensures Findable(sch, tables, conds) && Whole(sch, db, p)
            && Equivalent(sch, tables, AsRead(sch, tables, conds), conds) ==>
              forall env :: env in envs <==> Fits(db, env, TableSet(tables)) && AllHold(sch, db, env, conds)
  {
    hide Fits, AllHold, Gives, Raises, AsRead, Declared, ForQuery, Findable, Reads, SameConds, Whole, ScanConds,
      JoinsPlaced, Covers, TableSet;
    p := MakeOneRel(tables, conds, sch);
    PlacedApart(p);
    out, envs := Execute(sch, db, p);
    if Findable(sch, tables, conds) {
      OnlyGiven(sch, db, p, out, envs, tables, AsRead(sch, tables, conds));
    } else {
      NoneOut(sch, db, p, out, envs);
    }
  }

  lemma FirstGiven(sch: Schema, db: Database, p: Plan, out: seq<Row>, envs: seq<Env>)
    requires Output(sch, db, p, out, envs) && |out| > 0
    ensures exists env :: Gives(sch, db, p, env)
  {
    hide Gives;
    assert Gives(sch, db, p, envs[0]);
  }

  lemma NoneOut(sch: Schema, db: Database, p: Plan, out: seq<Row>, envs: seq<Env>)
    requires Barren(sch, p) && Output(sch, db, p, out, envs)
    ensures out == []
  {
    hide Gives;
    if |out| > 0 {
      FirstGiven(sch, db, p, out, envs);
    }
  }
}
