/** A durable store stopped between two calls and opened again from its own trail (src/adapter.rs:126-158). */
module StoreRestart {
  import opened StoreSpec
  import Store
  import WorkTime

  /** Nothing but the audit counter moves, and that not backwards. */
  method Restart(store: Store.Inner) returns (again: Store.Inner)
    requires store.Valid() && store.engine.durable
    ensures fresh(again) && fresh(again.engine) && again.Valid() && again.cfg == store.cfg && again.engine.durable
    ensures again.db == store.db.(audit := again.db.audit) && store.db.audit <= again.db.audit
  {
    again := new Store.Inner.Reopen(store.cfg, store.engine.trail, store.db);
  }

  /**
   A project and an issue made in a new store are there, and nothing else is, once it has been closed and opened
   again.
   */
  method WorkThenRestart(cfg: Config, spec: NewIssue, minted: int, at: int) returns (made: bool, again: Store.Inner)
    requires WorkTime.ValidWeek(cfg.week) && spec.project.Some? && spec.parent.None?
    ensures made && fresh(again) && again.Valid()
    ensures again.db.projects == {spec.project.value}
    ensures var id := spec.id.GetOr(minted);
            again.db.issues == map[id := FreshRow(spec, id, spec.project.value, cfg, at)]
  {
    FirstWork(cfg, spec, minted, at);
    var store := new Store.Inner.Open(cfg, true);
    store.EnsureProject(spec.project.value);
    var r := store.Create(spec, minted, at);
    made := r.Ok?;
    again := Restart(store);
  }

  lemma FirstWork(cfg: Config, spec: NewIssue, minted: int, at: int)
    requires spec.project.Some? && spec.parent.None?
    ensures var r := Create(EnsureProject(EMPTY_DB, spec.project.value), cfg, spec, minted, at);
            var id := spec.id.GetOr(minted);
            && r.Ok? && r.value.projects == {spec.project.value}
            && r.value.issues == map[id := FreshRow(spec, id, spec.project.value, cfg, at)]
  {
  }
}
