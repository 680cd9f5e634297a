/** References between security groups: the edges that the rules of a group name, kept by the
    save and destroy hooks. */
module SecurityGroups {
  import opened Wrappers

  /** What one line of a rule text comes to: a skipped or ignored line, a rule without a group,
      a rule naming a group, or a syntax error. */
  datatype Line = Ignored | Plain | Names(group: nat) | Malformed

  /** A group row; its id is its key. `vifs` counts the attached interfaces. */
  datatype Group = Group(lines: seq<Line>, vifs: nat)

  /** security_group_references: (referencer, referencee) rows. */
  datatype Db = Db(groups: map<nat, Group>, edges: seq<(nat, nat)>)

  datatype GroupError = InvalidRuleSyntax | InUse | Referenced | UnknownGroup

  // ----- handle_refs -----

  function NamedBy(lines: seq<Line>): set<nat> {
    set i | 0 <= i < |lines| && lines[i].Names? :: lines[i].group
  }

  predicate Parses(lines: seq<Line>) {
    forall i :: 0 <= i < |lines| ==> !lines[i].Malformed?
  }

  /** The create pass: one line after the other, an edge to each existing group not linked yet. */
  function Link(db: Db, id: nat, lines: seq<Line>): Db {
    if lines == [] then db
    else
      var n := |lines| - 1;
      var d := Link(db, id, lines[..n]);
      if lines[n].Names? && (id, lines[n].group) !in d.edges && lines[n].group in d.groups
      then d.(edges := d.edges + [(id, lines[n].group)]) else d
  }

  /** The delete pass: drops the edges of the group to groups no longer named. */
  function Prune(edges: seq<(nat, nat)>, id: nat, named: set<nat>): seq<(nat, nat)> {
    if edges == [] then []
    else
      var n := |edges| - 1;
      Prune(edges[..n], id, named) + if edges[n].0 == id && edges[n].1 !in named then [] else [edges[n]]
  }

  /** Delete pass, write the row, create pass; a malformed line aborts the save. */
  function Save(db: Db, id: nat, group: Group): Result<Db, GroupError> {
    if !Parses(group.lines) then Err(InvalidRuleSyntax)
    else
      var pruned := Prune(db.edges, id, NamedBy(group.lines));
      Ok(Link(Db(db.groups[id := group], pruned), id, group.lines))
  }

  function Destroy(db: Db, id: nat): Result<Db, GroupError> {
    if id !in db.groups then Err(UnknownGroup)
    else if db.groups[id].vifs > 0 then Err(InUse)
    else if exists e :: e in db.edges && e.1 == id then Err(Referenced)
    else Ok(Db(db.groups - {id}, Prune(db.edges, id, {})))
  }

  class GroupTables {
    var groups: map<nat, Group>
    var edges: seq<(nat, nat)>

    function State(): Db
      reads this
    {
      Db(groups, edges)
    }

    constructor ()
      ensures State() == Db(map[], [])
    {
      groups, edges := map[], [];
    }

    /** handle_refs(:create) */
    method LinkReferencees(id: nat, lines: seq<Line>)
      modifies this`edges
      ensures State() == Link(old(State()), id, lines)
    {
      for k := 0 to |lines|
        invariant State() == Link(old(State()), id, lines[..k])
      {
        assert lines[..k + 1][..k] == lines[..k];
        if lines[k].Names? && (id, lines[k].group) !in edges && lines[k].group in groups {
          edges := edges + [(id, lines[k].group)];
        }
      }
      assert lines[..|lines|] == lines;
    }

    /** handle_refs(:delete) */
    method PruneReferencees(id: nat, named: set<nat>)
      modifies this`edges
      ensures edges == Prune(old(edges), id, named)
    {
      var kept := [];
      for k := 0 to |edges|
        invariant kept == Prune(edges[..k], id, named)
        invariant edges == old(edges)
      {
        assert edges[..k + 1][..k] == edges[..k];
        if edges[k].0 != id || edges[k].1 in named {
          kept := kept + [edges[k]];
        }
      }
      assert edges[..|edges|] == edges;
      edges := kept;
    }

    method SaveGroup(id: nat, group: Group) returns (r: Result<(), GroupError>)
      modifies this
      ensures match Save(old(State()), id, group)
              case Ok(db) => r == Ok(()) && State() == db
              case Err(e) => r == Err(e) && State() == old(State())
    {
      if !Parses(group.lines) {
        return Err(InvalidRuleSyntax);
      }
      PruneReferencees(id, NamedBy(group.lines));
      groups := groups[id := group];
      LinkReferencees(id, group.lines);
      r := Ok(());
    }

    method DestroyGroup(id: nat) returns (r: Result<(), GroupError>)
      modifies this
      ensures match Destroy(old(State()), id)
              case Ok(db) => r == Ok(()) && State() == db
              case Err(e) => r == Err(e) && State() == old(State())
    {
      if id !in groups {
        return Err(UnknownGroup);
      }
      if groups[id].vifs > 0 {
        return Err(InUse);
      }
      if exists e :: e in edges && e.1 == id {
        return Err(Referenced);
      }
      PruneReferencees(id, {});
      groups := groups - {id};
      r := Ok(());
    }
  }

  // ----- what the passes do -----

  ghost predicate NoDuplicates(edges: seq<(nat, nat)>) {
    forall i, j :: 0 <= i < j < |edges| ==> edges[i] != edges[j]
  }

  lemma {:induction false} PruneMeaning(edges: seq<(nat, nat)>, id: nat, named: set<nat>)
    ensures forall e :: (e in Prune(edges, id, named) <==> e in edges && !(e.0 == id && e.1 !in named))
    ensures NoDuplicates(edges) ==> NoDuplicates(Prune(edges, id, named))
  {
    if edges != [] {
      var n := |edges| - 1;
      PruneMeaning(edges[..n], id, named);
      assert forall e :: e in edges <==> e == edges[n] || e in edges[..n];
      if NoDuplicates(edges) {
        assert edges[n] !in edges[..n];
        assert edges[n] !in Prune(edges[..n], id, named);
      }
    }
  }

  lemma {:induction false} LinkMeaning(db: Db, id: nat, lines: seq<Line>)
    ensures var r := Link(db, id, lines);
            && r.groups == db.groups
            && (forall e :: (e in r.edges <==>
                  e in db.edges || (e.0 == id && e.1 in NamedBy(lines) && e.1 in db.groups)))
            && (NoDuplicates(db.edges) ==> NoDuplicates(r.edges))
  {
    if lines != [] {
      var n := |lines| - 1;
      LinkMeaning(db, id, lines[..n]);
      NamedByLast(lines);
    }
  }

  lemma NamedByLast(lines: seq<Line>)
    requires lines != []
    ensures var n := |lines| - 1;
            NamedBy(lines) == NamedBy(lines[..n]) + if lines[n].Names? then {lines[n].group} else {}
  {
    var n := |lines| - 1;
    forall g ensures g in NamedBy(lines) <==> g in NamedBy(lines[..n]) || (lines[n].Names? && g == lines[n].group) {
      if g in NamedBy(lines[..n]) {
        var i :| 0 <= i < n && lines[..n][i].Names? && lines[..n][i].group == g;
        assert lines[i].Names? && lines[i].group == g;
      }
      if g in NamedBy(lines) {
        var i :| 0 <= i < |lines| && lines[i].Names? && lines[i].group == g;
        assert i < n ==> lines[..n][i].Names? && lines[..n][i].group == g;
      }
      if lines[n].Names? && g == lines[n].group {
        assert lines[n].group in NamedBy(lines);
      }
    }
  }

  // ----- runs -----

  datatype Event = SaveAs(id: nat, group: Group) | Drop(id: nat)

  function Step(db: Db, e: Event): Result<Db, GroupError> {
    if e.SaveAs? then Save(db, e.id, e.group) else Destroy(db, e.id)
  }

  function After(events: seq<Event>): Db {
    if events == [] then Db(map[], [])
    else
      var db := After(events[..|events| - 1]);
      var r := Step(db, events[|events| - 1]);
      if r.Ok? then r.value else db
  }

  predicate EdgeOk(db: Db, e: (nat, nat)) {
    e.0 in db.groups && e.1 in db.groups && e.1 in NamedBy(db.groups[e.0].lines)
  }

  /** Every edge joins existing groups, is named by the rules of its referencer, and is stored once. */
  ghost predicate Sound(db: Db) {
    NoDuplicates(db.edges) && forall e :: e in db.edges ==> EdgeOk(db, e)
  }

  lemma {:induction false} StepSound(db: Db, e: Event)
    requires Sound(db) && Step(db, e).Ok?
    ensures Sound(Step(db, e).value)
  {
    var r := Step(db, e).value;
    var named := if e.SaveAs? then NamedBy(e.group.lines) else {};
    PruneMeaning(db.edges, e.id, named);
    if e.SaveAs? {
      LinkMeaning(Db(db.groups[e.id := e.group], Prune(db.edges, e.id, named)), e.id, e.group.lines);
    }
    forall x | x in r.edges ensures EdgeOk(r, x) {
      if x in db.edges {
        assert EdgeOk(db, x);
      }
    }
  }

  lemma {:induction false} RunSound(events: seq<Event>)
    ensures Sound(After(events))
  {
    if events != [] {
      var db := After(events[..|events| - 1]);
      RunSound(events[..|events| - 1]);
      if Step(db, events[|events| - 1]).Ok? {
        StepSound(db, events[|events| - 1]);
      }
    }
  }

  /** A save is accepted exactly when no line is malformed. Right after it the group references
      exactly the existing groups that a line names, and no other group's references have changed. */
  lemma {:induction false} SaveSetsReferences(db: Db, id: nat, group: Group)
    requires Sound(db)
    ensures Save(db, id, group).Ok? <==> Malformed !in group.lines
    ensures Save(db, id, group).Ok? ==>
              var r := Save(db, id, group).value;
              && (forall g :: (id, g) in r.edges <==> Names(g) in group.lines && g in r.groups)
              && (forall a, b :: a != id ==> ((a, b) in r.edges <==> (a, b) in db.edges))
              && r.groups == db.groups[id := group]
  {
    PruneMeaning(db.edges, id, NamedBy(group.lines));
    LinkMeaning(Db(db.groups[id := group], Prune(db.edges, id, NamedBy(group.lines))), id, group.lines);
    NamedByLines(group.lines);
    forall g | (id, g) in db.edges ensures g in db.groups {
      assert EdgeOk(db, (id, g));
    }
  }

  lemma NamedByLines(lines: seq<Line>)
    ensures forall g :: g in NamedBy(lines) <==> Names(g) in lines
  {
    forall g | Names(g) in lines ensures g in NamedBy(lines) {
      var i :| 0 <= i < |lines| && lines[i] == Names(g);
      assert lines[i].Names? && lines[i].group == g;
    }
  }

  /** A group is destroyed exactly when it exists, has no interface and no reference points at it,
      its own included; only the references it makes itself go with it. */
  lemma {:induction false} DestroyOnlyUnreferenced(db: Db, id: nat)
    requires Sound(db)
    ensures Destroy(db, id).Ok? <==>
              id in db.groups && db.groups[id].vifs == 0 && forall a :: (a, id) !in db.edges
    ensures Destroy(db, id).Ok? ==>
              var r := Destroy(db, id).value;
              && r.groups == db.groups - {id}
              && forall e :: (e in r.edges <==> e in db.edges && e.0 != id)
  {
    PruneMeaning(db.edges, id, {});
    if e :| e in db.edges && e.1 == id {
      assert e == (e.0, id);
    }
  }

  /** Every group whose rules name it has the edge to itself. */
  ghost predicate SelfLinked(db: Db) {
    forall g :: g in db.groups && g in NamedBy(db.groups[g].lines) ==> (g, g) in db.edges
  }

  lemma {:induction false} StepSelfLinked(db: Db, e: Event)
    requires Sound(db) && SelfLinked(db) && Step(db, e).Ok?
    ensures SelfLinked(Step(db, e).value)
  {
    if e.SaveAs? {
      SaveSetsReferences(db, e.id, e.group);
      NamedByLines(e.group.lines);
    } else {
      DestroyOnlyUnreferenced(db, e.id);
    }
  }

  /** In every run a group whose current rules name it keeps its own reference and is not destroyed. */
  lemma {:induction false} SelfReferenceStays(events: seq<Event>)
    ensures SelfLinked(After(events))
    ensures forall g :: g in After(events).groups && g in NamedBy(After(events).groups[g].lines) ==>
              Destroy(After(events), g).Err?
  {
    if events != [] {
      var init, e := events[..|events| - 1], events[|events| - 1];
      SelfReferenceStays(init);
      RunSound(init);
      if Step(After(init), e).Ok? {
        StepSelfLinked(After(init), e);
      }
    }
    RunSound(events);
    forall g | g in After(events).groups && g in NamedBy(After(events).groups[g].lines)
      ensures Destroy(After(events), g).Err?
    {
      DestroyOnlyUnreferenced(After(events), g);
    }
  }
}
