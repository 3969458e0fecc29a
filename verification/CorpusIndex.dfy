/** Indexes over the parsed corpus: ancestor chains and byte-identical twins
    (`build_ancestor_titles`, `build_duplicate_text_index` in
    scripts/casco_clause_selection.py), and the twin expansion of reference
    lists in `main` of scripts/draft_golden_questions_casco.py. */
module CorpusIndex {
  import opened Ordering
  import opened Outcomes

  const MIN_TEXT_CHARS := 30

  type ClauseId = string

  /** `body` is the clause text with surrounding white space stripped. */
  datatype Clause = Clause(
    clauseId: ClauseId, documentId: string, parentId: Option<ClauseId>, title: string, body: string)

  /** {record.clause_id: record for record in records}: the last record of an id wins. */
  function ById(records: seq<Clause>): map<ClauseId, Clause> {
    if records == [] then map[]
    else ById(records[..|records| - 1])[records[|records| - 1].clauseId := records[|records| - 1]]
  }

  // ----- ancestors

  /** The walk up the parent links; `seen` stops it on a cycle. */
  function Walk(byId: map<ClauseId, Clause>, parent: Option<ClauseId>, seen: set<ClauseId>): seq<ClauseId>
    decreases byId.Keys - seen
  {
    if parent.None? || parent.value !in byId || parent.value in seen then []
    else
      assert parent.value in byId.Keys - seen;
      [parent.value] + Walk(byId, byId[parent.value].parentId, seen + {parent.value})
  }

  function Ancestors(byId: map<ClauseId, Clause>, c: Clause): seq<ClauseId> {
    Walk(byId, c.parentId, {c.clauseId})
  }

  /** Titles of the known ids among `ids`; ancestors are always known. */
  function Titles(byId: map<ClauseId, Clause>, ids: seq<ClauseId>): seq<string> {
    if ids == [] then []
    else if ids[0] in byId then [byId[ids[0]].title] + Titles(byId, ids[1..])
    else Titles(byId, ids[1..])
  }

  lemma {:induction false} WalkKnown(byId: map<ClauseId, Clause>, parent: Option<ClauseId>, seen: set<ClauseId>)
    ensures forall id :: id in Walk(byId, parent, seen) ==> id in byId && id !in seen
    ensures Distinct(Walk(byId, parent, seen))
    decreases byId.Keys - seen
  {
    if parent.Some? && parent.value in byId && parent.value !in seen {
      assert parent.value in byId.Keys - seen;
      WalkKnown(byId, byId[parent.value].parentId, seen + {parent.value});
    }
  }

  method BuildAncestorTitles(records: seq<Clause>) returns (chains: map<ClauseId, seq<string>>)
    ensures var byId := ById(records);
      && chains.Keys == byId.Keys
      && forall id :: id in byId ==> ChainOf(byId, id, chains[id])
  {
    var byId := ById(records);
    chains := map[];
    for i := 0 to |records|
      invariant chains.Keys == ById(records[..i]).Keys
      invariant forall id :: id in chains ==> ChainOfClause(byId, ById(records[..i])[id], chains[id])
    {
      var record := records[i];
      var titles := WalkTitles(byId, record);
      assert records[..i + 1][..i] == records[..i];
      chains := chains[record.clauseId := titles];
    }
    assert records[..|records|] == records;
  }

  /** The inner loop of the walk. */
  method WalkTitles(byId: map<ClauseId, Clause>, record: Clause) returns (titles: seq<string>)
    ensures ChainOfClause(byId, record, titles)
  {
    titles := [];
    var seen := {record.clauseId};
    var parentId := record.parentId;
    while parentId.Some? && parentId.value in byId && parentId.value !in seen
      invariant Titles(byId, Ancestors(byId, record)) == titles + Titles(byId, Walk(byId, parentId, seen))
      decreases byId.Keys - seen
    {
      WalkStep(byId, parentId.value, seen);
      seen := seen + {parentId.value};
      var parent := byId[parentId.value];
      titles := titles + [parent.title];
      parentId := parent.parentId;
    }
  }

  lemma WalkStep(byId: map<ClauseId, Clause>, id: ClauseId, seen: set<ClauseId>)
    requires id in byId && id !in seen
    ensures byId.Keys - (seen + {id}) < byId.Keys - seen
    ensures Titles(byId, Walk(byId, Some(id), seen))
         == [byId[id].title] + Titles(byId, Walk(byId, byId[id].parentId, seen + {id}))
  {
    assert id in byId.Keys - seen;
    var rest := Walk(byId, byId[id].parentId, seen + {id});
    assert Walk(byId, Some(id), seen) == [id] + rest;
    assert ([id] + rest)[1..] == rest;
  }

  ghost predicate ChainOfClause(byId: map<ClauseId, Clause>, c: Clause, titles: seq<string>) {
    titles == Titles(byId, Ancestors(byId, c))
  }

  ghost predicate ChainOf(byId: map<ClauseId, Clause>, id: ClauseId, titles: seq<string>) {
    id in byId && ChainOfClause(byId, byId[id], titles)
  }

  // ----- what a chain is

  /** The link followed after i ancestors. */
  function Link(byId: map<ClauseId, Clause>, c: Clause, ids: seq<ClauseId>, i: nat): Option<ClauseId>
    requires i <= |ids| && forall id :: id in ids ==> id in byId
  {
    if i == 0 then c.parentId else byId[ids[i - 1]].parentId
  }

  /** Following the links gives the ids one by one, all known and none met before. */
  ghost predicate Linked(byId: map<ClauseId, Clause>, c: Clause, ids: seq<ClauseId>) {
    && (forall id :: id in ids ==> id in byId && id != c.clauseId)
    && Distinct(ids)
    && (forall i {:trigger Link(byId, c, ids, i)} :: 0 <= i < |ids| ==> Link(byId, c, ids, i) == Some(ids[i]))
  }

  /** A linked list of ids that cannot go on: the next link is absent, unknown, or leads
      back into the chain. */
  ghost predicate IsChain(byId: map<ClauseId, Clause>, c: Clause, ids: seq<ClauseId>) {
    && Linked(byId, c, ids)
    && (match Link(byId, c, ids, |ids|)
        case None => true
        case Some(next) => next !in byId || next == c.clauseId || next in ids)
  }

  /** The walk visits distinct known ancestors, at most one per other clause of the corpus,
      and is the only chain of its clause. */
  lemma AncestorsAreTheChain(byId: map<ClauseId, Clause>, c: Clause, ids: seq<ClauseId>)
    ensures IsChain(byId, c, ids) <==> ids == Ancestors(byId, c)
    ensures |Ancestors(byId, c)| <= |byId.Keys - {c.clauseId}|
  {
    var walk := Ancestors(byId, c);
    WalkKnown(byId, c.parentId, {c.clauseId});
    assert Elements(walk) <= byId.Keys - {c.clauseId};
    SubsetSize(Elements(walk), byId.Keys - {c.clauseId});
    DistinctCardinality(walk);
    WalkLinks(byId, c, [], walk);
    assert [] + walk == walk;
    if IsChain(byId, c, ids) {
      ChainIsWalk(byId, c, ids, 0);
      assert Elements(ids[..0]) == {} && ids[0..] == ids;
      assert {c.clauseId} + Elements(ids[..0]) == {c.clauseId};
    }
  }

  /** The walk from a prefix of the chain completes it. */
  lemma {:induction false} WalkLinks(byId: map<ClauseId, Clause>, c: Clause, prefix: seq<ClauseId>, rest: seq<ClauseId>)
    requires Linked(byId, c, prefix)
    requires rest == Walk(byId, Link(byId, c, prefix, |prefix|), {c.clauseId} + Elements(prefix))
    ensures IsChain(byId, c, prefix + rest)
    decreases |rest|
  {
    if rest == [] {
      assert prefix + rest == prefix;
    } else {
      LinkedSnoc(byId, c, prefix, rest[0]);
      WalkLinks(byId, c, prefix + [rest[0]], rest[1..]);
      assert prefix + [rest[0]] + rest[1..] == prefix + rest;
    }
  }

  lemma LinkedSnoc(byId: map<ClauseId, Clause>, c: Clause, prefix: seq<ClauseId>, id: ClauseId)
    requires Linked(byId, c, prefix) && Link(byId, c, prefix, |prefix|) == Some(id)
    requires id in byId && id != c.clauseId && id !in prefix
    ensures Linked(byId, c, prefix + [id])
    ensures Link(byId, c, prefix + [id], |prefix| + 1) == byId[id].parentId
    ensures {c.clauseId} + Elements(prefix + [id]) == {c.clauseId} + Elements(prefix) + {id}
  {
    var longer := prefix + [id];
    forall i | 0 <= i < |longer| ensures Link(byId, c, longer, i) == Some(longer[i]) {
      if i < |prefix| { assert Link(byId, c, prefix, i) == Some(prefix[i]); }
    }
  }

  lemma {:induction false} ChainIsWalk(byId: map<ClauseId, Clause>, c: Clause, ids: seq<ClauseId>, k: nat)
    requires IsChain(byId, c, ids) && k <= |ids|
    ensures ids[k..] == Walk(byId, Link(byId, c, ids, k), {c.clauseId} + Elements(ids[..k]))
    decreases |ids| - k
  {
    if k == |ids| {
      assert ids[..k] == ids && ids[k..] == [];
    } else {
      ChainIsWalk(byId, c, ids, k + 1);
      assert ids[..k + 1] == ids[..k] + [ids[k]];
      assert {c.clauseId} + Elements(ids[..k + 1]) == {c.clauseId} + Elements(ids[..k]) + {ids[k]};
      assert ids[k] !in ids[..k];
      assert ids[k..] == [ids[k]] + ids[k + 1..];
      var seen := {c.clauseId} + Elements(ids[..k]);
      assert ids[k] in ids;
      assert Link(byId, c, ids, k) == Some(ids[k]);
      assert Walk(byId, Some(ids[k]), seen) == [ids[k]] + Walk(byId, byId[ids[k]].parentId, seen + {ids[k]});
    }
  }

  // ----- forests

  /** A rank that grows from parent to child: the parent map has no cycle. */
  ghost predicate Acyclic(byId: map<ClauseId, Clause>, rank: ClauseId -> nat) {
    forall id :: id in byId && byId[id].parentId.Some? && byId[id].parentId.value in byId ==>
      rank(byId[id].parentId.value) < rank(id)
  }

  /** The guard-free recursion: the parent, then the parent's own chain. */
  ghost function Climb(byId: map<ClauseId, Clause>, rank: ClauseId -> nat, parent: Option<ClauseId>): seq<ClauseId>
    requires Acyclic(byId, rank)
    decreases if parent.Some? then 1 + rank(parent.value) else 0
  {
    if parent.None? || parent.value !in byId then []
    else
      var next := byId[parent.value].parentId;
      [parent.value] + (if next.Some? && next.value in byId then Climb(byId, rank, next) else [])
  }

  /** On a forest the cycle guard never fires and the loop is the recursion, nearest parent first. */
  lemma AncestorsOfForest(byId: map<ClauseId, Clause>, rank: ClauseId -> nat, c: Clause)
    requires Acyclic(byId, rank) && c.clauseId in byId && byId[c.clauseId] == c
    ensures Ancestors(byId, c) == Climb(byId, rank, c.parentId)
  {
    WalkIsClimb(byId, rank, c.parentId, {c.clauseId});
  }

  lemma {:induction false} WalkIsClimb(
      byId: map<ClauseId, Clause>, rank: ClauseId -> nat, parent: Option<ClauseId>, seen: set<ClauseId>)
    requires Acyclic(byId, rank)
    requires parent.Some? && parent.value in byId ==> forall id :: id in seen ==> rank(parent.value) < rank(id)
    ensures Walk(byId, parent, seen) == Climb(byId, rank, parent)
    decreases byId.Keys - seen
  {
    if parent.Some? && parent.value in byId {
      assert parent.value in byId.Keys - seen;
      WalkIsClimb(byId, rank, byId[parent.value].parentId, seen + {parent.value});
    }
  }

  // ----- twins

  ghost predicate DistinctIds(records: seq<Clause>) {
    forall i, j :: 0 <= i < j < |records| ==> records[i].clauseId != records[j].clauseId
  }

  predicate LongEnough(c: Clause) { |c.body| >= MIN_TEXT_CHARS }

  datatype TextKey = TextKey(documentId: string, body: string)

  function KeyOf(c: Clause): TextKey { TextKey(c.documentId, c.body) }

  function InGroup(key: TextKey): Clause -> bool {
    (c: Clause) => LongEnough(c) && KeyOf(c) == key
  }

  function GroupIds(records: seq<Clause>, key: TextKey): seq<ClauseId> {
    if records == [] then []
    else if InGroup(key)(records[|records| - 1])
      then GroupIds(records[..|records| - 1], key) + [records[|records| - 1].clauseId]
    else GroupIds(records[..|records| - 1], key)
  }

  /** Different clauses of one document with the same text of at least thirty characters. */
  ghost predicate AreTwins(a: Clause, b: Clause) {
    LongEnough(a) && KeyOf(a) == KeyOf(b) && a.clauseId != b.clauseId
  }

  /** The ids of the twins of a clause. */
  ghost function TwinsIn(records: seq<Clause>, id: ClauseId): set<ClauseId> {
    set a, b | a in records && b in records && a.clauseId == id && AreTwins(a, b) :: b.clauseId
  }

  function TwinsAt(twins: map<ClauseId, set<ClauseId>>, id: ClauseId): set<ClauseId> {
    if id in twins then twins[id] else {}
  }

  /** The index holds exactly the clauses that have a twin, each with its twins. */
  ghost predicate IsTwinIndex(records: seq<Clause>, twins: map<ClauseId, set<ClauseId>>) {
    && (forall id :: TwinsAt(twins, id) == TwinsIn(records, id))
    && (forall id :: id in twins ==> twins[id] != {})
  }

  /** Groups are filled in record order; a key is present once its group is not empty. */
  ghost predicate GroupsOf(records: seq<Clause>, groups: map<TextKey, seq<ClauseId>>) {
    forall key :: GroupAt(groups, key) == GroupIds(records, key) && (key in groups ==> groups[key] != [])
  }

  function GroupAt(groups: map<TextKey, seq<ClauseId>>, key: TextKey): seq<ClauseId> {
    if key in groups then groups[key] else []
  }

  method BuildDuplicateTextIndex(records: seq<Clause>) returns (twins: map<ClauseId, set<ClauseId>>)
    ensures DistinctIds(records) ==> IsTwinIndex(records, twins)
  {
    var groups: map<TextKey, seq<ClauseId>> := map[];
    for i := 0 to |records|
      invariant GroupsOf(records[..i], groups)
    {
      GroupStep(records, i, groups);
      if LongEnough(records[i]) {
        var key := KeyOf(records[i]);
        groups := groups[key := GroupAt(groups, key) + [records[i].clauseId]];
      }
    }
    assert records[..|records|] == records;
    if DistinctIds(records) { GroupsDisjoint(records, groups); }
    twins := map[];
    var todo := groups.Keys;
    while todo != {}
      invariant todo <= groups.Keys
      invariant DistinctIds(records) ==> Indexed(groups, groups.Keys - todo, twins)
      decreases todo
    {
      var key :| key in todo;
      ghost var before := twins;
      if |groups[key]| >= 2 {
        twins := IndexGroup(groups[key], twins);
      }
      if DistinctIds(records) { IndexStep(groups, groups.Keys - todo, key, before, twins); }
      todo := todo - {key};
      assert groups.Keys - todo == groups.Keys - (todo + {key}) + {key};
    }
    if DistinctIds(records) {
      assert groups.Keys - todo == groups.Keys;
      IndexComplete(records, groups, twins);
    }
  }

  /** Every member of a group is mapped to the others. */
  method IndexGroup(clauseIds: seq<ClauseId>, given: map<ClauseId, set<ClauseId>>)
    returns (twins: map<ClauseId, set<ClauseId>>)
    ensures twins == given + map id | id in clauseIds :: Elements(clauseIds) - {id}
  {
    twins := given;
    var asSet := Elements(clauseIds);
    for i := 0 to |clauseIds|
      invariant twins.Keys == given.Keys + Elements(clauseIds[..i])
      invariant forall id :: id in twins ==>
        twins[id] == if id in clauseIds[..i] then asSet - {id} else given[id]
    {
      assert clauseIds[..i + 1] == clauseIds[..i] + [clauseIds[i]];
      twins := twins[clauseIds[i] := asSet - {clauseIds[i]}];
    }
    assert clauseIds[..|clauseIds|] == clauseIds;
  }

  lemma GroupStep(records: seq<Clause>, i: nat, groups: map<TextKey, seq<ClauseId>>)
    requires i < |records| && GroupsOf(records[..i], groups)
    ensures var c := records[i];
      GroupsOf(records[..i + 1],
        if LongEnough(c) then groups[KeyOf(c) := GroupAt(groups, KeyOf(c)) + [c.clauseId]] else groups)
  {
    var c := records[i];
    var next := records[..i + 1];
    assert next[..|next| - 1] == records[..i] && next[|next| - 1] == c;
    var after := if LongEnough(c) then groups[KeyOf(c) := GroupAt(groups, KeyOf(c)) + [c.clauseId]] else groups;
    forall key ensures GroupAt(after, key) == GroupIds(next, key) && (key in after ==> after[key] != []) {
      assert GroupAt(groups, key) == GroupIds(records[..i], key);
    }
  }

  lemma {:induction false} GroupIdsMeaning(records: seq<Clause>, key: TextKey, id: ClauseId)
    ensures id in GroupIds(records, key) <==> exists a :: a in records && InGroup(key)(a) && a.clauseId == id
  {
    if records != [] {
      SplitLast(records);
      GroupIdsMeaning(records[..|records| - 1], key, id);
    }
  }

  lemma {:induction false} GroupIdsDistinct(records: seq<Clause>, key: TextKey)
    requires DistinctIds(records)
    ensures Distinct(GroupIds(records, key))
  {
    if records != [] {
      var front, last := records[..|records| - 1], records[|records| - 1];
      GroupIdsDistinct(front, key);
      GroupIdsMeaning(front, key, last.clauseId);
      assert last.clauseId !in GroupIds(front, key) by {
        forall a | a in front ensures a.clauseId != last.clauseId {
          var i :| 0 <= i < |front| && front[i] == a;
          assert records[i].clauseId != records[|records| - 1].clauseId;
        }
      }
    }
  }

  lemma SameIdSameClause(records: seq<Clause>, a: Clause, b: Clause)
    requires DistinctIds(records) && a in records && b in records && a.clauseId == b.clauseId
    ensures a == b
  {
    var i :| 0 <= i < |records| && records[i] == a;
    var j :| 0 <= j < |records| && records[j] == b;
    assert i == j;
  }

  /** The members of a group are each other's twins. */
  lemma GroupTwins(records: seq<Clause>, key: TextKey, id: ClauseId)
    requires DistinctIds(records) && id in GroupIds(records, key)
    ensures TwinsIn(records, id) == Elements(GroupIds(records, key)) - {id}
  {
    GroupIdsMeaning(records, key, id);
    var a :| a in records && InGroup(key)(a) && a.clauseId == id;
    forall other ensures other in TwinsIn(records, id) <==> other in Elements(GroupIds(records, key)) - {id} {
      GroupIdsMeaning(records, key, other);
      if other in TwinsIn(records, id) {
        var x, b :| x in records && b in records && x.clauseId == id && AreTwins(x, b) && b.clauseId == other;
        SameIdSameClause(records, a, x);
        assert InGroup(key)(b);
      }
      if other in GroupIds(records, key) && other != id {
        var b :| b in records && InGroup(key)(b) && b.clauseId == other;
        assert AreTwins(a, b);
      }
    }
  }

  /** A clause with a twin is in a group of at least two. */
  lemma TwinsShareGroup(records: seq<Clause>, id: ClauseId) returns (key: TextKey)
    requires TwinsIn(records, id) != {}
    ensures id in GroupIds(records, key) && |GroupIds(records, key)| >= 2
  {
    var other :| other in TwinsIn(records, id);
    var a, b :| a in records && b in records && a.clauseId == id && AreTwins(a, b) && b.clauseId == other;
    key := KeyOf(a);
    GroupIdsMeaning(records, key, id);
    GroupIdsMeaning(records, key, other);
    assert InGroup(key)(a) && InGroup(key)(b);
    var ids := GroupIds(records, key);
    var i :| 0 <= i < |ids| && ids[i] == id;
    var j :| 0 <= j < |ids| && ids[j] == other;
  }

  ghost predicate Disjoint(groups: map<TextKey, seq<ClauseId>>) {
    forall k, l, id :: k in groups && l in groups && id in groups[k] && id in groups[l] ==> k == l
  }

  lemma GroupsDisjoint(records: seq<Clause>, groups: map<TextKey, seq<ClauseId>>)
    requires DistinctIds(records) && GroupsOf(records, groups)
    ensures Disjoint(groups)
  {
    forall k, l, id | k in groups && l in groups && id in groups[k] && id in groups[l] ensures k == l {
      assert GroupAt(groups, k) == GroupIds(records, k) && GroupAt(groups, l) == GroupIds(records, l);
      GroupIdsMeaning(records, k, id);
      GroupIdsMeaning(records, l, id);
      var a :| a in records && InGroup(k)(a) && a.clauseId == id;
      var b :| b in records && InGroup(l)(b) && b.clauseId == id;
      SameIdSameClause(records, a, b);
    }
  }

  /** The index after the groups of `done`. */
  ghost predicate Indexed(
      groups: map<TextKey, seq<ClauseId>>, done: set<TextKey>, twins: map<ClauseId, set<ClauseId>>)
  {
    && (forall key, id :: key in done && key in groups && id in groups[key] && |groups[key]| >= 2 ==>
          id in twins && twins[id] == Elements(groups[key]) - {id})
    && (forall id :: id in twins ==>
          exists key :: key in done && key in groups && id in groups[key] && |groups[key]| >= 2)
  }

  lemma IndexStep(groups: map<TextKey, seq<ClauseId>>, done: set<TextKey>, key: TextKey,
                  before: map<ClauseId, set<ClauseId>>, after: map<ClauseId, set<ClauseId>>)
    requires Disjoint(groups) && Indexed(groups, done, before) && key in groups && key !in done
    requires after == if |groups[key]| < 2 then before
      else before + map id | id in groups[key] :: Elements(groups[key]) - {id}
    ensures Indexed(groups, done + {key}, after)
  {
  }

  lemma IndexComplete(records: seq<Clause>, groups: map<TextKey, seq<ClauseId>>, twins: map<ClauseId, set<ClauseId>>)
    requires DistinctIds(records) && GroupsOf(records, groups) && Indexed(groups, groups.Keys, twins)
    ensures IsTwinIndex(records, twins)
  {
    forall id ensures TwinsAt(twins, id) == TwinsIn(records, id) && (id in twins ==> twins[id] != {}) {
      if id in twins {
        var key :| key in groups && id in groups[key] && |groups[key]| >= 2;
        assert GroupAt(groups, key) == GroupIds(records, key);
        GroupTwins(records, key, id);
        GroupIdsDistinct(records, key);
        DistinctCardinality(groups[key]);
        if Elements(groups[key]) <= {id} { SubsetSize(Elements(groups[key]), {id}); }
      } else {
        UnindexedHasNoTwin(records, groups, twins, id);
      }
    }
  }

  lemma UnindexedHasNoTwin(records: seq<Clause>, groups: map<TextKey, seq<ClauseId>>,
                           twins: map<ClauseId, set<ClauseId>>, id: ClauseId)
    requires GroupsOf(records, groups) && Indexed(groups, groups.Keys, twins)
    ensures TwinsIn(records, id) != {} ==> id in twins
  {
    if TwinsIn(records, id) != {} {
      var key := TwinsShareGroup(records, id);
      assert GroupAt(groups, key) == GroupIds(records, key);
    }
  }

  // ----- twin expansion of a reference list

  ghost function Enumerate(s: set<ClauseId>): (xs: seq<ClauseId>)
    ensures Distinct(xs) && forall x :: x in xs <==> x in s
  {
    if s == {} then []
    else
      var x :| x in s;
      [x] + Enumerate(s - {x})
  }

  /** `sorted` of a set of ids. */
  ghost function SortedOf(s: set<ClauseId>): seq<ClauseId> {
    SortBy(Enumerate(s), StringLe)
  }

  method SortedIds(s: set<ClauseId>) returns (xs: seq<ClauseId>)
    ensures xs == SortedOf(s)
  {
    xs := [];
    var todo := s;
    while todo != {}
      invariant todo <= s && Distinct(xs)
      invariant forall x :: x in xs <==> x in s && x !in todo
      decreases todo
    {
      var x :| x in todo;
      todo := todo - {x};
      xs := xs + [x];
    }
    SortOfSame(xs, Enumerate(s));
    xs := SortBy(xs, StringLe);
  }

  lemma SortOfSame(xs: seq<ClauseId>, ys: seq<ClauseId>)
    requires Distinct(xs) && Distinct(ys) && forall x :: x in xs <==> x in ys
    ensures SortBy(xs, StringLe) == SortBy(ys, StringLe)
  {
    StringOrder();
    SortBySorts(xs, StringLe);
    SortBySorts(ys, StringLe);
    SortByDistinct(xs, StringLe);
    SortByDistinct(ys, StringLe);
    SortByElements(xs, StringLe);
    SortByElements(ys, StringLe);
    SortedUnique(SortBy(xs, StringLe), SortBy(ys, StringLe), StringLe);
  }

  function AppendNew(acc: seq<ClauseId>, xs: seq<ClauseId>): seq<ClauseId>
    decreases xs
  {
    if xs == [] then acc
    else AppendNew(if xs[0] in acc then acc else acc + [xs[0]], xs[1..])
  }

  /** The list after appending, for each of `rest` in turn, its twins not there yet. */
  ghost function Expand(twins: map<ClauseId, set<ClauseId>>, rest: seq<ClauseId>, acc: seq<ClauseId>): seq<ClauseId>
    decreases rest
  {
    if rest == [] then acc
    else Expand(twins, rest[1..], AppendNew(acc, SortedOf(TwinsAt(twins, rest[0]))))
  }

  method ExpandWithTwins(twins: map<ClauseId, set<ClauseId>>, refs: seq<ClauseId>) returns (expanded: seq<ClauseId>)
    ensures expanded == Expand(twins, refs, refs)
  {
    expanded := refs;
    for k := 0 to |refs|
      invariant Expand(twins, refs, refs) == Expand(twins, refs[k..], expanded)
    {
      assert refs[k..][0] == refs[k] && refs[k..][1..] == refs[k + 1..];
      var sortedTwins := SortedIds(TwinsAt(twins, refs[k]));
      expanded := AppendTwins(expanded, sortedTwins);
    }
  }

  method AppendTwins(acc: seq<ClauseId>, sortedTwins: seq<ClauseId>) returns (expanded: seq<ClauseId>)
    ensures expanded == AppendNew(acc, sortedTwins)
  {
    expanded := acc;
    for t := 0 to |sortedTwins|
      invariant AppendNew(acc, sortedTwins) == AppendNew(expanded, sortedTwins[t..])
    {
      assert sortedTwins[t..][0] == sortedTwins[t] && sortedTwins[t..][1..] == sortedTwins[t + 1..];
      if sortedTwins[t] !in expanded {
        expanded := expanded + [sortedTwins[t]];
      }
    }
  }

  /** `e` is `acc` followed by ids that were not there yet. */
  ghost predicate AddsNew(acc: seq<ClauseId>, e: seq<ClauseId>) {
    acc <= e && forall i :: |acc| <= i < |e| ==> e[i] !in e[..i]
  }

  ghost predicate IsTwinOfAny(twins: map<ClauseId, set<ClauseId>>, refs: seq<ClauseId>, x: ClauseId) {
    exists r :: r in refs && x in TwinsAt(twins, r)
  }

  lemma AddsNewTransitive(a: seq<ClauseId>, b: seq<ClauseId>, c: seq<ClauseId>)
    requires AddsNew(a, b) && AddsNew(b, c)
    ensures AddsNew(a, c)
  {
    forall i | |a| <= i < |c| ensures c[i] !in c[..i] {
      if i < |b| { assert c[i] == b[i] && c[..i] == b[..i]; }
    }
  }

  lemma {:induction false} AppendNewMeaning(acc: seq<ClauseId>, xs: seq<ClauseId>)
    ensures AddsNew(acc, AppendNew(acc, xs))
    ensures forall x :: x in AppendNew(acc, xs) <==> x in acc || x in xs
    decreases xs
  {
    if xs != [] {
      var next := if xs[0] in acc then acc else acc + [xs[0]];
      assert AddsNew(acc, next);
      AppendNewMeaning(next, xs[1..]);
      AddsNewTransitive(acc, next, AppendNew(next, xs[1..]));
      assert forall x :: x in xs <==> x == xs[0] || x in xs[1..];
    }
  }

  lemma SortedOfElements(s: set<ClauseId>)
    ensures forall x :: x in SortedOf(s) <==> x in s
  {
    SortByElements(Enumerate(s), StringLe);
  }

  lemma {:induction false} ExpandMeaning(twins: map<ClauseId, set<ClauseId>>, rest: seq<ClauseId>, acc: seq<ClauseId>)
    ensures AddsNew(acc, Expand(twins, rest, acc))
    ensures forall x :: x in Expand(twins, rest, acc) <==> x in acc || IsTwinOfAny(twins, rest, x)
    decreases rest
  {
    if rest != [] {
      var sorted := SortedOf(TwinsAt(twins, rest[0]));
      var next := AppendNew(acc, sorted);
      SortedOfElements(TwinsAt(twins, rest[0]));
      AppendNewMeaning(acc, sorted);
      ExpandMeaning(twins, rest[1..], next);
      AddsNewTransitive(acc, next, Expand(twins, rest[1..], next));
      forall x
        ensures IsTwinOfAny(twins, rest, x) <==> x in TwinsAt(twins, rest[0]) || IsTwinOfAny(twins, rest[1..], x)
      {
        TwinOfHeadOrTail(twins, rest, x);
      }
    }
  }

  lemma TwinOfHeadOrTail(twins: map<ClauseId, set<ClauseId>>, rest: seq<ClauseId>, x: ClauseId)
    requires rest != []
    ensures IsTwinOfAny(twins, rest, x) <==> x in TwinsAt(twins, rest[0]) || IsTwinOfAny(twins, rest[1..], x)
  {
    if IsTwinOfAny(twins, rest, x) {
      var r :| r in rest && x in TwinsAt(twins, r);
      assert r == rest[0] || r in rest[1..];
    }
    if IsTwinOfAny(twins, rest[1..], x) {
      var r :| r in rest[1..] && x in TwinsAt(twins, r);
      assert r in rest;
    }
  }

  /** Twins of a twin are the clause itself or its twins. */
  lemma TwinsTransitive(records: seq<Clause>, id: ClauseId, x: ClauseId, y: ClauseId)
    requires DistinctIds(records) && x in TwinsIn(records, id) && y in TwinsIn(records, x)
    ensures y == id || y in TwinsIn(records, id)
  {
    var a, b :| a in records && b in records && a.clauseId == id && AreTwins(a, b) && b.clauseId == x;
    var c, d :| c in records && d in records && c.clauseId == x && AreTwins(c, d) && d.clauseId == y;
    SameIdSameClause(records, b, c);
    if y != id { assert AreTwins(a, d); }
  }

  /** The expansion starts with the references, adds only their twins and none twice, and is
      closed: every twin of a listed clause is listed. */
  lemma ExpansionIsClosure(records: seq<Clause>, twins: map<ClauseId, set<ClauseId>>, refs: seq<ClauseId>)
    requires DistinctIds(records) && IsTwinIndex(records, twins)
    ensures var e := Expand(twins, refs, refs);
      && AddsNew(refs, e)
      && (forall x :: x in e <==> x in refs || IsTwinOfAny(twins, refs, x))
      && (forall x, y :: x in e && y in TwinsAt(twins, x) ==> y in e)
  {
    var e := Expand(twins, refs, refs);
    ExpandMeaning(twins, refs, refs);
    forall x, y | x in e && y in TwinsAt(twins, x) ensures y in e {
      if x in refs {
        assert IsTwinOfAny(twins, refs, y);
      } else {
        var r :| r in refs && x in TwinsAt(twins, r);
        TwinsTransitive(records, r, x, y);
        if y != r { assert y in TwinsAt(twins, r) && IsTwinOfAny(twins, refs, y); }
      }
    }
  }

  lemma {:induction false} NothingToAppend(acc: seq<ClauseId>, xs: seq<ClauseId>)
    requires forall x :: x in xs ==> x in acc
    ensures AppendNew(acc, xs) == acc
    decreases xs
  {
    if xs != [] { NothingToAppend(acc, xs[1..]); }
  }

  lemma {:induction false} NothingToExpand(twins: map<ClauseId, set<ClauseId>>, rest: seq<ClauseId>, acc: seq<ClauseId>)
    requires forall r, x :: r in rest && x in TwinsAt(twins, r) ==> x in acc
    ensures Expand(twins, rest, acc) == acc
    decreases rest
  {
    if rest != [] {
      SortedOfElements(TwinsAt(twins, rest[0]));
      NothingToAppend(acc, SortedOf(TwinsAt(twins, rest[0])));
      NothingToExpand(twins, rest[1..], acc);
    }
  }

  /** Expanding an expanded list changes nothing. */
  lemma ExpansionIdempotent(records: seq<Clause>, twins: map<ClauseId, set<ClauseId>>, refs: seq<ClauseId>)
    requires DistinctIds(records) && IsTwinIndex(records, twins)
    ensures var e := Expand(twins, refs, refs); Expand(twins, e, e) == e
  {
    var e := Expand(twins, refs, refs);
    ExpansionIsClosure(records, twins, refs);
    NothingToExpand(twins, e, e);
  }

  // ----- the index in the fields of the clauses

  /** One clause is listed under another if and only if they are different clauses of one document
      whose texts are the same and at least thirty characters long. */
  lemma TwinsInFields(records: seq<Clause>, twins: map<ClauseId, set<ClauseId>>, a: Clause, b: Clause)
    requires DistinctIds(records) && IsTwinIndex(records, twins) && a in records && b in records
    ensures a.clauseId in twins && b.clauseId in twins[a.clauseId] <==> SameLongText(a, b)
  {
    assert TwinsAt(twins, a.clauseId) == TwinsIn(records, a.clauseId);
    if b.clauseId in TwinsIn(records, a.clauseId) {
      var x, y :|
        x in records && y in records && x.clauseId == a.clauseId && AreTwins(x, y) && y.clauseId == b.clauseId;
      SameClause(records, a, x);
      SameClause(records, b, y);
    }
  }

  predicate SameLongText(a: Clause, b: Clause) {
    a.clauseId != b.clauseId && a.documentId == b.documentId && a.body == b.body && |a.body| >= 30
  }

  /** Only clauses that have a twin are in the index at all. */
  lemma OnlyTwinsAreIndexed(records: seq<Clause>, twins: map<ClauseId, set<ClauseId>>, id: ClauseId)
    requires DistinctIds(records) && IsTwinIndex(records, twins)
    ensures id in twins <==> exists a, b :: a in records && b in records && a.clauseId == id && SameLongText(a, b)
  {
    assert TwinsAt(twins, id) == TwinsIn(records, id);
    if id in twins {
      var other :| other in twins[id];
      var a, b :| a in records && b in records && a.clauseId == id && AreTwins(a, b) && b.clauseId == other;
    }
    if a, b :| a in records && b in records && a.clauseId == id && SameLongText(a, b) {
      assert AreTwins(a, b);
      assert b.clauseId in TwinsIn(records, id);
    }
  }

  lemma SameClause(records: seq<Clause>, a: Clause, b: Clause)
    requires DistinctIds(records) && a in records && b in records && a.clauseId == b.clauseId
    ensures a == b
  {
    var i :| 0 <= i < |records| && records[i] == a;
    var j :| 0 <= j < |records| && records[j] == b;
  }
}
