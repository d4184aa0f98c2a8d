/** The share mounts of a connection: tree objects held in a table keyed by path and
    a table keyed by id, each counting how often it is connected. */
module TreeTables {

  type Path = string

  // ------------------------------------------------------------ tables as values

  datatype Mount = Mount(path: Path, count: int)

  datatype Tables = Tables(byName: map<Path, nat>, byId: map<nat, Mount>)

  const Empty := Tables(map[], map[])

  /** The two tables hold the same mounts, each under its own path and id, and every
      mount is connected at least once. */
  ghost predicate Sound(t: Tables) {
    && (forall p :: p in t.byName ==> t.byName[p] in t.byId && t.byId[t.byName[p]].path == p)
    && (forall id :: id in t.byId ==>
          t.byId[id].path in t.byName && t.byName[t.byId[id].path] == id && t.byId[id].count >= 1)
  }

  /** Connecting counts up the mount of the path, or makes one under the drawn id. */
  function Connected(t: Tables, path: Path, drawn: nat): Tables {
    if path in t.byName then
      var id := t.byName[path];
      var m := if id in t.byId then t.byId[id] else Mount(path, 0);
      t.(byId := t.byId[id := m.(count := m.count + 1)])
    else
      Tables(t.byName[path := drawn], t.byId[drawn := Mount(path, 1)])
  }

  /** The id a connect is answered with. */
  function Given(t: Tables, path: Path, drawn: nat): nat {
    if path in t.byName then t.byName[path] else drawn
  }

  /** Disconnecting counts down, and drops the mount from both tables at zero. */
  function Disconnected(t: Tables, id: nat): Tables {
    if id !in t.byId then t
    else
      var m := t.byId[id];
      if m.count == 1 then Tables(t.byName - {m.path}, t.byId - {id})
      else t.(byId := t.byId[id := m.(count := m.count - 1)])
  }

  /** Connecting keeps the tables sound exactly when the path is mounted already or
      the drawn id is unused. */
  lemma {:induction false} ConnectKeepsSoundIff(t: Tables, path: Path, drawn: nat)
    requires Sound(t)
    ensures Sound(Connected(t, path, drawn)) <==> path in t.byName || drawn !in t.byId
  {
    var u := Connected(t, path, drawn);
    if path !in t.byName && drawn in t.byId {
      var other := t.byId[drawn].path;
      assert other in u.byName && u.byName[other] == drawn && u.byId[drawn].path == path != other;
    }
  }

  lemma {:induction false} DisconnectKeepsSound(t: Tables, id: nat)
    requires Sound(t)
    ensures Sound(Disconnected(t, id))
  {
  }

  // ----------------------------------------------------------------------- runs

  /** A connect that passed the access checks, with the random id it would use, or a
      disconnect of any id. */
  datatype Event = Connect(path: Path, drawn: nat) | Disconnect(id: nat)

  function Step(t: Tables, e: Event): Tables {
    match e case Connect(p, d) => Connected(t, p, d) case Disconnect(id) => Disconnected(t, id)
  }

  function Run(es: seq<Event>): Tables {
    if es == [] then Empty else Step(Run(es[..|es| - 1]), es[|es| - 1])
  }

  /** Every new mount draws an id that is not mounted at that time; ids that have been
      released may be drawn again. */
  predicate FreshDraws(es: seq<Event>) {
    es == [] ||
    var prev, e := es[..|es| - 1], es[|es| - 1];
    FreshDraws(prev) && (e.Connect? && e.path !in Run(prev).byName ==> e.drawn !in Run(prev).byId)
  }

  ghost predicate SoundThroughout(es: seq<Event>) {
    Sound(Run(es)) && (es == [] || SoundThroughout(es[..|es| - 1]))
  }

  /** Connects answered with an id, less the disconnects that found it mounted. */
  function Balance(es: seq<Event>, id: nat): nat {
    if es == [] then 0
    else
      var prev, e := es[..|es| - 1], es[|es| - 1];
      var b := Balance(prev, id);
      match e
      case Connect(p, d) => if Given(Run(prev), p, d) == id then b + 1 else b
      case Disconnect(i) => if i == id && b > 0 then b - 1 else b
  }

  ghost predicate CountsBalance(es: seq<Event>, t: Tables) {
    forall id :: (id in t.byId <==> Balance(es, id) > 0) && (id in t.byId ==> t.byId[id].count == Balance(es, id))
  }

  /** The tables stay sound over a whole run exactly when no mount draws an id in use;
      then an id resolves exactly while it has been connected more often than
      disconnected, which is its count. */
  lemma {:induction false} RunIsSoundIff(es: seq<Event>)
    ensures SoundThroughout(es) <==> FreshDraws(es)
    ensures FreshDraws(es) ==> CountsBalance(es, Run(es))
  {
    if es != [] {
      hide FreshDraws, Run, SoundThroughout;
      var prev, e := es[..|es| - 1], es[|es| - 1];
      RunStep(es);
      var t := Run(prev);
      RunIsSoundIff(prev);
      if SoundThroughout(prev) {
        match e {
          case Connect(p, d) => ConnectKeepsSoundIff(t, p, d);
          case Disconnect(id) => DisconnectKeepsSound(t, id);
        }
      }
    }
  }

  /** Two new mounts that draw the same id: the first path then leads to the second
      mount. */
  lemma {:induction false} ClashingDraws()
    ensures var t := Run([Connect("a", 1), Connect("b", 1)]);
      !Sound(t) && t.byName == map["a" := 1, "b" := 1] && t.byId == map[1 := Mount("b", 1)]
  {
    var es := [Connect("a", 1), Connect("b", 1)];
    assert es[..1] == [Connect("a", 1)] && es[..1][..0] == [];
    assert Run(es[..1]) == Tables(map["a" := 1], map[1 := Mount("a", 1)]);
    var t := Run(es);
    assert t == Tables(map["a" := 1, "b" := 1], map[1 := Mount("b", 1)]);
    assert "a" in t.byName;
  }

  lemma {:induction false} RunStep(es: seq<Event>)
    requires es != []
    ensures var prev, e := es[..|es| - 1], es[|es| - 1];
      && (FreshDraws(es) <==> FreshDraws(prev) && (e.Connect? && e.path !in Run(prev).byName ==> e.drawn !in Run(prev).byId))
      && (SoundThroughout(es) <==> SoundThroughout(prev) && Sound(Run(es)))
      && (SoundThroughout(prev) ==> Sound(Run(prev)))
      && Run(es) == Step(Run(prev), e)
  {
    hide Sound;
  }

  // ------------------------------------------------------------- the connection

  class Tree {
    const id: nat
    const path: Path
    var refCount: int

    constructor (id: nat, path: Path)
      ensures this.id == id && this.path == path && refCount == 1
    {
      this.id, this.path, refCount := id, path, 1;
    }
  }

  ghost function Ids(trees: map<Path, Tree>): map<Path, nat> {
    map p | p in trees :: trees[p].id
  }

  ghost function Counts(trees: map<nat, Tree>): map<nat, Mount>
    reads trees.Values
  {
    map id | id in trees :: Mount(trees[id].path, trees[id].refCount)
  }

  lemma {:induction false} IdsKeys(trees: map<Path, Tree>)
    ensures Ids(trees).Keys == trees.Keys
  {
  }

  lemma {:induction false} IdsChange(trees: map<Path, Tree>, p: Path, tree: Tree)
    ensures Ids(trees[p := tree]) == Ids(trees)[p := tree.id] && Ids(trees - {p}) == Ids(trees) - {p}
  {
  }

  lemma {:induction false} CountsChange(trees: map<nat, Tree>, id: nat, tree: Tree)
    ensures Counts(trees[id := tree]) == Counts(trees)[id := Mount(tree.path, tree.refCount)]
    ensures Counts(trees - {id}) == Counts(trees) - {id}
  {
  }

  class Connection {
    var treeMapByName: map<Path, Tree>
    var treeMapById: map<nat, Tree>

    /** Both tables lead to the same tree objects, one for each mount. */
    ghost predicate Valid()
      reads this
    {
      && (forall p :: p in treeMapByName ==>
            var tree := treeMapByName[p]; tree.path == p && tree.id in treeMapById && treeMapById[tree.id] == tree)
      && (forall id :: id in treeMapById ==>
            var tree := treeMapById[id]; tree.id == id && tree.path in treeMapByName && treeMapByName[tree.path] == tree)
    }

    ghost function View(): Tables
      reads this, treeMapById.Values
    {
      Tables(Ids(treeMapByName), Counts(treeMapById))
    }

    constructor ()
      ensures Valid() && View() == Empty
    {
      treeMapByName, treeMapById := map[], map[];
    }

    /** A connect to a share the client may use. A drawn id that is in use takes the
        entry of the mount that has it, and the tables no longer agree. */
    method TreeConnect(path: Path, drawn: nat) returns (tree: Tree)
      requires Valid()
      modifies this, treeMapById.Values
      ensures Valid() <==> path in old(treeMapByName) || drawn !in old(treeMapById)
      ensures View() == Connected(old(View()), path, drawn)
      ensures tree.id == Given(old(View()), path, drawn) && tree.path == path
      ensures path in old(treeMapByName) ==> tree == old(treeMapByName[path])
    {
      if path in treeMapByName {
        tree := treeMapByName[path];
        CountUp(tree);
      } else {
        tree := new Tree(drawn, path);
        AddTree(tree);
      }
    }

    method CountUp(tree: Tree)
      requires Valid() && tree.path in treeMapByName && treeMapByName[tree.path] == tree
      modifies tree
      ensures Valid() && View() == Connected(old(View()), tree.path, tree.id)
    {
      assert tree == treeMapById[tree.id];
      tree.refCount := tree.refCount + 1;
      assert View().byId == Connected(old(View()), tree.path, tree.id).byId;
    }

    method AddTree(tree: Tree)
      requires Valid() && tree.path !in treeMapByName && tree.refCount == 1
      requires tree !in treeMapById.Values
      modifies this
      ensures Valid() <==> tree.id !in old(treeMapById)
      ensures View() == Connected(old(View()), tree.path, tree.id)
    {
      IdsChange(treeMapByName, tree.path, tree);
      CountsChange(treeMapById, tree.id, tree);
      hide Ids, Counts;
      assert tree.path !in Ids(treeMapByName) by { IdsKeys(treeMapByName); }
      ghost var byName, byId := treeMapByName, treeMapById;
      treeMapByName := treeMapByName[tree.path := tree];
      treeMapById := treeMapById[tree.id := tree];
      if tree.id in byId {
        assert byName[byId[tree.id].path] == byId[tree.id] == treeMapByName[byId[tree.id].path];
      }
    }

    /** A disconnect; an unknown id changes nothing. */
    method TreeDisconnect(id: nat) returns (known: bool)
      requires Valid()
      modifies this, treeMapById.Values
      ensures Valid() && View() == Disconnected(old(View()), id)
      ensures known <==> id in old(treeMapById)
    {
      known := id in treeMapById;
      if known {
        var tree := treeMapById[id];
        CountDown(tree);
        if tree.refCount == 0 {
          DropUpdated(old(View()).byId, id, Mount(tree.path, 0));
          DropTree(tree);
        }
      }
    }

    method CountDown(tree: Tree)
      requires Valid() && tree.id in treeMapById && treeMapById[tree.id] == tree
      modifies tree
      ensures Valid() && tree.refCount == old(tree.refCount) - 1
      ensures View() == old(View()).(byId := old(View()).byId[tree.id := Mount(tree.path, tree.refCount)])
    {
      tree.refCount := tree.refCount - 1;
      assert View().byId == old(View()).byId[tree.id := Mount(tree.path, tree.refCount)];
    }

    method DropTree(tree: Tree)
      requires Valid() && tree.id in treeMapById && treeMapById[tree.id] == tree
      modifies this
      ensures Valid() && View() == Tables(old(View()).byName - {tree.path}, old(View()).byId - {tree.id})
    {
      IdsChange(treeMapByName, tree.path, tree);
      CountsChange(treeMapById, tree.id, tree);
      hide Ids, Counts;
      treeMapByName := treeMapByName - {tree.path};
      treeMapById := treeMapById - {tree.id};
    }
  }

  lemma {:induction false} DropUpdated(m: map<nat, Mount>, id: nat, x: Mount)
    ensures m[id := x] - {id} == m - {id}
  {
  }
}
