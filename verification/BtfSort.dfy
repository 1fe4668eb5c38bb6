/** The order of the types in a sorted C dump: lib/bpftool/src/btf.c. */
module BtfSort {
  import opened Common
  import opened BtfFormat
  import opened BtfGraph
  import opened Reachability
  import opened Sorting

  datatype SortDatum = SortDatum(index: nat, typeRank: int, sortName: string, ownName: string, disambigHash: u64)

  // ---------- Following references ----------

  predicate IsReference(kind: int) {
    kind in {BTF_KIND_ARRAY, BTF_KIND_TYPE_TAG, BTF_KIND_CONST, BTF_KIND_PTR, BTF_KIND_VOLATILE, BTF_KIND_RESTRICT,
             BTF_KIND_TYPEDEF, BTF_KIND_DECL_TAG}
  }

  function Target(src: TypeTable, id: nat): (r: nat)
    requires id < |src| && IsReference(Kind(src[id]))
    ensures r < |src|
  {
    var t := src[id];
    assert ValidRecord(t, |src|);
    var w := if Kind(t) == BTF_KIND_ARRAY then 3 else SIZE_OR_TYPE;
    assert IsIdSlot(Kind(t), Vlen(t), w);
    t[w]
  }

  function Refs(src: TypeTable): int -> seq<int> {
    (id: int) => if 0 <= id < |src| && IsReference(Kind(src[id])) then [Target(src, id)] else []
  }

  // A chain of references from the type comes to an end within `d` steps.
  ghost predicate Ends(src: TypeTable, id: nat, d: nat) {
    id < |src| && Grounded(Refs(src), id, d)
  }

  lemma EndsAtTarget(src: TypeTable, id: nat, d: nat)
    requires Ends(src, id, d) && IsReference(Kind(src[id]))
    ensures d > 0 && Ends(src, Target(src, id), d - 1)
  {
    assert Target(src, id) in Refs(src)(id);
  }

  /** The chain from a type, which is what the name recursion follows, comes to an end if and only if it
      does not run into a cycle, and then within as many steps as there are types. */
  lemma EndsIffAcyclic(src: TypeTable, id: nat)
    requires id < |src|
    ensures Acyclic(Refs(src), id) <==> exists d: nat :: Ends(src, id, d)
    ensures Acyclic(Refs(src), id) ==> Ends(src, id, |src| + 1)
  {
    if Acyclic(Refs(src), id) {
      forall b | Reaches(Refs(src), id, b)
        ensures 0 <= b < |src|
      {
        var n: nat :| ReachesIn(Refs(src), id, b, n);
        ReachesInKeeps(Refs(src), (i: int) => 0 <= i < |src|, id, b, n);
      }
      AcyclicIsGrounded(Refs(src), id, (i: int) => i, |src|);
      assert Ends(src, id, |src| + 1);
    }
    if d: nat :| Ends(src, id, d) {
      GroundedIsAcyclic(Refs(src), id, d);
    }
  }

  // ---------- Rank and name ----------

  // A call of the rank recursion: a type, and whether a name has been met on the way.
  datatype RankNode = RankNode(id: int, hasName: bool)

  function RankCalls(src: TypeTable): RankNode -> seq<RankNode> {
    (x: RankNode) =>
      if 0 <= x.id < |src| && IsReference(Kind(src[x.id])) && (x.hasName || src[x.id][NAME] != 0)
      then [RankNode(Target(src, x.id), true)] else []
  }

  ghost predicate RankEnds(src: TypeTable, id: nat, hasName: bool, d: nat) {
    id < |src| && Grounded(RankCalls(src), RankNode(id, hasName), d)
  }

  lemma RankEndsAtTarget(src: TypeTable, id: nat, hasName: bool, d: nat)
    requires RankEnds(src, id, hasName, d) && IsReference(Kind(src[id])) && (hasName || src[id][NAME] != 0)
    ensures d > 0 && RankEnds(src, Target(src, id), true, d - 1)
  {
    assert RankNode(Target(src, id), true) in RankCalls(src)(RankNode(id, hasName));
  }

  /** The ranks by kind: anonymous enums (6, 19) first, then named ones, numbers (1, 16), structs (4, 5)
      and prototypes (13) with a name, and everything else; a reference with a name ranks as what it
      refers to, which for an array (3) is in the fourth word. */
  lemma RankByKind(src: TypeTable, id: nat, hasName: bool, d: nat)
    requires RankEnds(src, id, hasName, d)
    ensures var kind, named, rank := src[id][1] / 0x100_0000 % 32, hasName || src[id][0] != 0, BtfTypeRank(src, id, hasName, d);
            if kind in {6, 19} then rank == (if named then 1 else 0)
            else if kind in {1, 16} then rank == 2
            else if kind in {4, 5} && named then rank == 3
            else if kind == 13 && named then rank == 4
            else if kind in {2, 3, 8, 9, 10, 11, 17, 18} && named then
              d > 0 && RanksAsTarget(src, src[id], d - 1, rank)
            else rank == 10
  {
    var t := src[id];
    assert ValidRecord(t, |src|);
    if IsReference(Kind(t)) && (hasName || t[NAME] != 0) {
      RankEndsAtTarget(src, id, hasName, d);
      assert RanksAsTarget(src, t, d - 1, BtfTypeRank(src, id, hasName, d));
    }
  }

  // The type the record refers to has this rank under a name.
  ghost predicate RanksAsTarget(src: TypeTable, t: Record, e: nat, rank: int)
    requires |t| >= 3
  {
    var w := if t[1] / 0x100_0000 % 32 == 3 then 3 else 2;
    w < |t| && RankEnds(src, t[w], true, e) && BtfTypeRank(src, t[w], true, e) == rank
  }

  /** The names to sort by: a type that is no reference sorts by its own name, except that an anonymous
      enum (6, 19) that is not reached by reference sorts by its first enumerator. */
  lemma SortNameByKind(src: TypeTable, nameAt: u32 -> string, id: nat, fromRef: bool, d: nat)
    requires Ends(src, id, d) && !IsReference(Kind(src[id]))
    ensures var t := src[id];
            var isAnonymous := t[1] / 0x100_0000 % 32 in {6, 19} && t[0] == 0 && t[1] % 0x1_0000 > 0 && !fromRef;
            BtfTypeSortName(src, nameAt, id, fromRef, d) == nameAt(if isAnonymous && |t| > 3 then t[3] else t[0])
  {
    assert ValidRecord(src[id], |src|);
  }

  // Once a name has been met the recursion follows the whole chain.
  lemma {:induction false} NamedRankFollowsChain(src: TypeTable, id: nat, d: nat)
    requires id < |src|
    ensures RankEnds(src, id, true, d) <==> Ends(src, id, d)
    decreases d
  {
    var x := RankNode(id, true);
    if d == 0 || !IsReference(Kind(src[id])) {
      assert d > 0 ==> RankCalls(src)(x) == [] && Refs(src)(id) == [];
    } else {
      var r := Target(src, id);
      assert RankCalls(src)(x) == [RankNode(r, true)] && Refs(src)(id) == [r];
      assert RankNode(r, true) in RankCalls(src)(x) && r in Refs(src)(id);
      NamedRankFollowsChain(src, r, d - 1);
    }
  }

  // With or without a name met before, it ends wherever the chain does.
  lemma ChainEndsRank(src: TypeTable, id: nat, hasName: bool, d: nat)
    requires Ends(src, id, d)
    ensures RankEnds(src, id, hasName, d)
  {
    NamedRankFollowsChain(src, id, d);
    var x, y := RankNode(id, hasName), RankNode(id, true);
    assert RankCalls(src)(x) == RankCalls(src)(y) || RankCalls(src)(x) == [];
  }

  /** The rank recursion ends if and only if it stops at once, at a type that is no reference or at an
      unnamed one, or the chain does not run into a cycle. */
  lemma RankEndsIff(src: TypeTable, id: nat, hasName: bool)
    requires id < |src|
    ensures (exists d: nat :: RankEnds(src, id, hasName, d)) <==>
            !IsReference(Kind(src[id])) || (!hasName && src[id][NAME] == 0) || Acyclic(Refs(src), id)
  {
    var x, y := RankNode(id, hasName), RankNode(id, true);
    EndsIffAcyclic(src, id);
    if !IsReference(Kind(src[id])) || (!hasName && src[id][NAME] == 0) {
      assert RankCalls(src)(x) == [];
      assert RankEnds(src, id, hasName, 1);
    } else {
      assert RankCalls(src)(x) == RankCalls(src)(y);
      if d: nat :| RankEnds(src, id, hasName, d) {
        assert RankEnds(src, id, true, d);
        NamedRankFollowsChain(src, id, d);
      }
      if d: nat :| Ends(src, id, d) {
        ChainEndsRank(src, id, hasName, d);
      }
    }
  }

  const MAX_RANK := 10

  function BtfTypeRank(src: TypeTable, id: nat, hasName: bool, ghost d: nat): int
    requires RankEnds(src, id, hasName, d)
    decreases d
  {
    var t := src[id];
    var kind := Kind(t);
    var named := hasName || t[NAME] != 0;
    if kind == BTF_KIND_ENUM || kind == BTF_KIND_ENUM64 then (if named then 1 else 0)
    else if kind == BTF_KIND_INT || kind == BTF_KIND_FLOAT then 2
    else if kind == BTF_KIND_STRUCT || kind == BTF_KIND_UNION then (if named then 3 else MAX_RANK)
    else if kind == BTF_KIND_FUNC_PROTO then (if named then 4 else MAX_RANK)
    else if IsReference(kind) then
      if named then
        RankEndsAtTarget(src, id, hasName, d);
        BtfTypeRank(src, Target(src, id), true, d - 1)
      else MAX_RANK
    else MAX_RANK
  }

  function BtfTypeSortName(src: TypeTable, nameAt: u32 -> string, id: nat, fromRef: bool, ghost d: nat): string
    requires Ends(src, id, d)
    decreases d
  {
    var t := src[id];
    var kind := Kind(t);
    if kind == BTF_KIND_ENUM || kind == BTF_KIND_ENUM64 then
      assert ValidRecord(t, |src|);
      nameAt(if !fromRef && t[NAME] == 0 && Vlen(t) > 0 then t[3] else t[NAME])
    else if IsReference(kind) then
      EndsAtTarget(src, id, d);
      BtfTypeSortName(src, nameAt, Target(src, id), true, d - 1)
    else nameAt(t[NAME])
  }

  // The type at the end of the chain.
  function ChainEnd(src: TypeTable, id: nat, ghost d: nat): (r: nat)
    requires Ends(src, id, d)
    ensures r < |src| && !IsReference(Kind(src[r]))
    decreases d
  {
    if IsReference(Kind(src[id])) then
      EndsAtTarget(src, id, d);
      ChainEnd(src, Target(src, id), d - 1)
    else id
  }

  // The rank of a type under a name.
  function NamedRank(kind: int): int {
    if kind == BTF_KIND_ENUM || kind == BTF_KIND_ENUM64 then 1
    else if kind == BTF_KIND_INT || kind == BTF_KIND_FLOAT then 2
    else if kind == BTF_KIND_STRUCT || kind == BTF_KIND_UNION then 3
    else if kind == BTF_KIND_FUNC_PROTO then 4
    else MAX_RANK
  }

  /** A reference sorts by the name of the type it leads to, and as soon as it has a name itself, by
      the rank that type has under a name. */
  lemma {:induction false} ChainSortsLikeItsEnd(src: TypeTable, nameAt: u32 -> string, id: nat, hasName: bool, d: nat)
    requires Ends(src, id, d)
    ensures var last := src[ChainEnd(src, id, d)];
            && RankEnds(src, id, hasName, d)
            && (IsReference(Kind(src[id])) ==>
                  forall fromRef :: BtfTypeSortName(src, nameAt, id, fromRef, d) == nameAt(last[NAME]))
            && (hasName || src[id][NAME] != 0 ==> BtfTypeRank(src, id, hasName, d) == NamedRank(Kind(last)))
    decreases d
  {
    ChainEndsRank(src, id, hasName, d);
    if IsReference(Kind(src[id])) {
      EndsAtTarget(src, id, d);
      ChainSortsLikeItsEnd(src, nameAt, Target(src, id), true, d - 1);
    }
  }

  // ---------- The disambiguation hash ----------

  // A call of the hash recursion: a type, and whether the members of a struct count.
  datatype HashNode = HashNode(id: int, includeMembers: bool)

  function MemberNodes(t: Record): (s: seq<HashNode>)
    requires WellSized(t) && IsComposite(t)
    ensures |s| == Vlen(t) && forall k :: 0 <= k < |s| ==> s[k] == HashNode(t[MemberType(k)], false)
  {
    seq(Vlen(t), k requires 0 <= k < Vlen(t) => HashNode(t[MemberType(k)], false))
  }

  function HashNext(src: TypeTable, x: HashNode): seq<HashNode> {
    if 0 <= x.id < |src| then
      assert ValidRecord(src[x.id], |src|);
      if IsReference(Kind(src[x.id])) then [HashNode(Target(src, x.id), x.includeMembers)]
      else if IsComposite(src[x.id]) && x.includeMembers then MemberNodes(src[x.id])
      else []
    else []
  }

  function HashCalls(src: TypeTable): HashNode -> seq<HashNode> {
    (x: HashNode) => HashNext(src, x)
  }

  ghost predicate HashEnds(src: TypeTable, id: nat, includeMembers: bool, d: nat) {
    id < |src| && Grounded(HashCalls(src), HashNode(id, includeMembers), d)
  }

  lemma HashEndsAtNext(src: TypeTable, id: nat, includeMembers: bool, d: nat, c: HashNode)
    requires HashEnds(src, id, includeMembers, d) && c in HashNext(src, HashNode(id, includeMembers))
    ensures d > 0 && 0 <= c.id < |src| && HashEnds(src, c.id, c.includeMembers, d - 1)
  {
    var x := HashNode(id, includeMembers);
    assert c in HashCalls(src)(x);
    if !IsReference(Kind(src[id])) {
      var k :| 0 <= k < |HashNext(src, x)| && HashNext(src, x)[k] == c;
      IdInRange(src, id, MemberType(k));
    }
  }

  lemma HashEndsAtMember(src: TypeTable, id: nat, d: nat, k: nat)
    requires HashEnds(src, id, true, d) && WellSized(src[id]) && IsComposite(src[id]) && k < Vlen(src[id])
    ensures d > 0 && src[id][MemberType(k)] < |src| && HashEnds(src, src[id][MemberType(k)], false, d - 1)
  {
    var c := HashNext(src, HashNode(id, true))[k];
    HashEndsAtNext(src, id, true, d, c);
  }

  function Hasher(hash: u64, val: u64): u64 { (hash * 31 + val) % 0x1_0000_0000_0000_0000 }

  function BtfNameHasher(strHash: u32 -> u64, hash: u64, nameOff: u32): u64 {
    if nameOff == 0 then hash else Hasher(hash, strHash(nameOff))
  }

  // The names of the first `n` enumerators; an enumerator has `words` words.
  function HashEnumerators(strHash: u32 -> u64, t: Record, words: nat, n: nat, hash: u64): u64
    requires 3 + words * n <= |t| && words > 0
    decreases n
  {
    if n == 0 then hash
    else
      Step(words, n);
      BtfNameHasher(strHash, HashEnumerators(strHash, t, words, n - 1, hash), t[3 + words * (n - 1)])
  }

  lemma Step(words: nat, n: nat)
    requires n > 0
    ensures words * n == words * (n - 1) + words && words * (n - 1) >= 0
  {
  }

  // The first `n` members: the name of each, then what its type hashes to.
  function HashMembers(src: TypeTable, strHash: u32 -> u64, id: nat, n: nat, hash: u64, ghost d: nat): u64
    requires HashEnds(src, id, true, d) && WellSized(src[id]) && IsComposite(src[id]) && n <= Vlen(src[id])
    decreases d, 0, n
  {
    if n == 0 then hash
    else
      var t := src[id];
      HashEndsAtMember(src, id, d, n - 1);
      Hasher(BtfNameHasher(strHash, HashMembers(src, strHash, id, n - 1, hash, d), t[MemberName(n - 1)]),
             DisambigHash(src, strHash, t[MemberType(n - 1)], false, d - 1))
  }

  function DisambigHash(src: TypeTable, strHash: u32 -> u64, id: nat, includeMembers: bool, ghost d: nat): u64
    requires HashEnds(src, id, includeMembers, d)
    decreases d, 1
  {
    var t := src[id];
    assert ValidRecord(t, |src|);
    var kind := Kind(t);
    var hash := BtfNameHasher(strHash, 0, t[NAME]);
    if kind == BTF_KIND_ENUM then HashEnumerators(strHash, t, 2, Vlen(t), hash)
    else if kind == BTF_KIND_ENUM64 then HashEnumerators(strHash, t, 3, Vlen(t), hash)
    else if IsComposite(t) then (if includeMembers then HashMembers(src, strHash, id, Vlen(t), hash, d) else hash)
    else if IsReference(kind) then
      var c := HashNode(Target(src, id), includeMembers);
      HashEndsAtNext(src, id, includeMembers, d, c);
      Hasher(if kind == BTF_KIND_ARRAY then Hasher(hash, t[5]) else hash,
             DisambigHash(src, strHash, c.id, includeMembers, d - 1))
    else hash
  }

  /** btf_type_disambig_hash */
  method BtfTypeDisambigHash(src: TypeTable, strHash: u32 -> u64, id: nat, includeMembers: bool, ghost d: nat)
    returns (hash: u64)
    requires HashEnds(src, id, includeMembers, d)
    ensures hash == DisambigHash(src, strHash, id, includeMembers, d)
    decreases d, 1
  {
    var t := src[id];
    assert ValidRecord(t, |src|);
    var kind := Kind(t);
    hash := BtfNameHasher(strHash, 0, t[NAME]);
    if kind == BTF_KIND_ENUM || kind == BTF_KIND_ENUM64 {
      hash := AddEnumerators(strHash, t, if kind == BTF_KIND_ENUM then 2 else 3, hash);
    } else if IsComposite(t) {
      if includeMembers {
        hash := AddMembers(src, strHash, id, hash, d);
      }
    } else if IsReference(kind) {
      if kind == BTF_KIND_ARRAY {
        hash := Hasher(hash, t[5]);
      }
      HashEndsAtNext(src, id, includeMembers, d, HashNode(Target(src, id), includeMembers));
      var target := BtfTypeDisambigHash(src, strHash, Target(src, id), includeMembers, d - 1);
      hash := Hasher(hash, target);
    }
  }

  // The loop over the enumerators.
  method AddEnumerators(strHash: u32 -> u64, t: Record, words: nat, start: u64) returns (hash: u64)
    requires |t| >= 3 && 3 + words * Vlen(t) <= |t| && words > 0
    ensures hash == HashEnumerators(strHash, t, words, Vlen(t), start)
  {
    hash := start;
    var i := 0;
    while i < Vlen(t)
      invariant 0 <= i <= Vlen(t) && 3 + words * i <= |t|
      invariant hash == HashEnumerators(strHash, t, words, i, start)
    {
      EnumeratorInside(words, i, Vlen(t));
      hash := BtfNameHasher(strHash, hash, t[3 + words * i]);
      i := i + 1;
    }
  }

  lemma EnumeratorInside(words: nat, i: nat, n: nat)
    requires i < n
    ensures words * i + words == words * (i + 1) <= words * n
  {
    assert words * n == words * (i + 1) + words * (n - i - 1);
    assert words * (n - i - 1) >= 0;
  }

  // The loop over the members.
  method AddMembers(src: TypeTable, strHash: u32 -> u64, id: nat, start: u64, ghost d: nat) returns (hash: u64)
    requires HashEnds(src, id, true, d) && WellSized(src[id]) && IsComposite(src[id])
    ensures hash == HashMembers(src, strHash, id, Vlen(src[id]), start, d)
    decreases d, 0
  {
    var t := src[id];
    hash := start;
    var i := 0;
    while i < Vlen(t)
      invariant 0 <= i <= Vlen(t) && hash == HashMembers(src, strHash, id, i, start, d)
    {
      HashEndsAtMember(src, id, d, i);
      hash := BtfNameHasher(strHash, hash, t[MemberName(i)]);
      var member := BtfTypeDisambigHash(src, strHash, t[MemberType(i)], false, d - 1);
      hash := Hasher(hash, member);
      i := i + 1;
    }
  }

  lemma {:induction false} HashWithoutMembersFollowsChain(src: TypeTable, id: nat, d: nat)
    requires id < |src|
    ensures HashEnds(src, id, false, d) <==> Ends(src, id, d)
    decreases d
  {
    var x := HashNode(id, false);
    if d == 0 || !IsReference(Kind(src[id])) {
      assert d > 0 ==> HashCalls(src)(x) == [] && Refs(src)(id) == [];
    } else {
      var r := Target(src, id);
      assert HashCalls(src)(x) == [HashNode(r, false)] && Refs(src)(id) == [r];
      assert HashNode(r, false) in HashCalls(src)(x) && r in Refs(src)(id);
      HashWithoutMembersFollowsChain(src, r, d - 1);
    }
  }

  // Past its own chain the recursion goes down the chains of the members, and no further.
  lemma {:induction false} ChainsEndHash(src: TypeTable, id: nat, d: nat, e: nat)
    requires Ends(src, id, e) && forall i: nat :: i < |src| ==> Ends(src, i, d)
    ensures HashEnds(src, id, true, d + e)
    decreases e
  {
    var x := HashNode(id, true);
    forall c | c in HashCalls(src)(x)
      ensures Grounded(HashCalls(src), c, d + e - 1)
    {
      if IsReference(Kind(src[id])) {
        EndsAtTarget(src, id, e);
        ChainsEndHash(src, Target(src, id), d, e - 1);
      } else {
        var k :| 0 <= k < |HashNext(src, x)| && HashNext(src, x)[k] == c;
        IdInRange(src, id, MemberType(k));
        HashWithoutMembersFollowsChain(src, c.id, d);
        GroundedMore(HashCalls(src), c, d, d + e - 1);
      }
    }
  }

  lemma {:induction false} HashEndsChain(src: TypeTable, id: nat, d: nat)
    requires HashEnds(src, id, true, d)
    ensures Ends(src, id, d)
    decreases d
  {
    if IsReference(Kind(src[id])) {
      var c := HashNode(Target(src, id), true);
      HashEndsAtNext(src, id, true, d, c);
      HashEndsChain(src, c.id, d - 1);
      assert Refs(src)(id) == [c.id];
    } else {
      assert Refs(src)(id) == [];
    }
  }

  ghost predicate ChainIsAcyclic(src: TypeTable, id: nat) { Acyclic(Refs(src), id) }

  ghost predicate HashTerminates(src: TypeTable, id: nat) { exists d: nat :: HashEnds(src, id, true, d) }

  /** The hash recursion ends for every type, however structs refer to each other, if and only if no
      chain of references runs into a cycle. */
  lemma HashEndsIffAcyclic(src: TypeTable)
    ensures (forall id: nat :: id < |src| ==> HashTerminates(src, id)) <==>
            (forall id: nat :: id < |src| ==> ChainIsAcyclic(src, id))
  {
    forall id: nat | id < |src| && HashTerminates(src, id)
      ensures ChainIsAcyclic(src, id)
    {
      var d: nat :| HashEnds(src, id, true, d);
      HashEndsChain(src, id, d);
      EndsIffAcyclic(src, id);
    }
    if forall id: nat :: id < |src| ==> ChainIsAcyclic(src, id) {
      var d := |src| + 1;
      forall id: nat | id < |src|
        ensures Ends(src, id, d)
      {
        assert ChainIsAcyclic(src, id);
        EndsIffAcyclic(src, id);
      }
      forall id: nat | id < |src|
        ensures HashTerminates(src, id)
      {
        ChainsEndHash(src, id, d, d);
        assert HashEnds(src, id, true, d + d);
      }
    }
  }

  // ---------- What the hash depends on ----------

  /** A value is added to 31 times what was hashed before, modulo 2^64. */
  lemma HasherAdds(hash: u64, val: u64)
    ensures exists q :: 31 * hash + val == q * 0x1_0000_0000_0000_0000 + Hasher(hash, val)
    ensures hash == 0 ==> Hasher(hash, val) == val
  {
    var x, m := 31 * hash + val, 0x1_0000_0000_0000_0000;
    assert x == x / m * m + x % m;
  }

  // A name counts when there is one.
  lemma NameHash(strHash: u32 -> u64, nameOff: u32)
    ensures BtfNameHasher(strHash, 0, nameOff) == if nameOff == 0 then 0 else strHash(nameOff)
  {
    HasherAdds(0, strHash(nameOff));
  }

  lemma HashOfNumber(src: TypeTable, strHash: u32 -> u64, id: nat, includeMembers: bool, d: nat)
    requires HashEnds(src, id, includeMembers, d) && Kind(src[id]) == BTF_KIND_INT
    ensures DisambigHash(src, strHash, id, includeMembers, d) == BtfNameHasher(strHash, 0, src[id][0])
  {
  }

  /** A reference to a number, other than an array: the reference's name, and then that of the number. */
  lemma HashOfReference(src: TypeTable, strHash: u32 -> u64, id: nat, includeMembers: bool, d: nat)
    requires HashEnds(src, id, includeMembers, d) && IsReference(Kind(src[id])) && Kind(src[id]) != BTF_KIND_ARRAY
    requires Kind(src[Target(src, id)]) == BTF_KIND_INT
    ensures DisambigHash(src, strHash, id, includeMembers, d) ==
            Hasher(BtfNameHasher(strHash, 0, src[id][0]), BtfNameHasher(strHash, 0, src[Target(src, id)][0]))
  {
    var c := HashNode(Target(src, id), includeMembers);
    HashEndsAtNext(src, id, includeMembers, d, c);
    HashOfNumber(src, strHash, c.id, includeMembers, d - 1);
  }

  // A bound that is large enough does not matter.
  lemma {:induction false} HashIgnoresBound(src: TypeTable, strHash: u32 -> u64, id: nat, includeMembers: bool, d: nat, e: nat)
    requires HashEnds(src, id, includeMembers, d) && HashEnds(src, id, includeMembers, e)
    ensures DisambigHash(src, strHash, id, includeMembers, d) == DisambigHash(src, strHash, id, includeMembers, e)
    decreases d, 1
  {
    var t := src[id];
    assert ValidRecord(t, |src|);
    if IsComposite(t) {
      if includeMembers {
        MembersIgnoreBound(src, strHash, id, Vlen(t), BtfNameHasher(strHash, 0, t[NAME]), d, e);
      }
    } else if IsReference(Kind(t)) {
      var c := HashNode(Target(src, id), includeMembers);
      HashEndsAtNext(src, id, includeMembers, d, c);
      HashEndsAtNext(src, id, includeMembers, e, c);
      HashIgnoresBound(src, strHash, c.id, includeMembers, d - 1, e - 1);
    }
  }

  lemma {:induction false} MembersIgnoreBound(src: TypeTable, strHash: u32 -> u64, id: nat, n: nat, hash: u64, d: nat, e: nat)
    requires HashEnds(src, id, true, d) && HashEnds(src, id, true, e)
    requires WellSized(src[id]) && IsComposite(src[id]) && n <= Vlen(src[id])
    ensures HashMembers(src, strHash, id, n, hash, d) == HashMembers(src, strHash, id, n, hash, e)
    decreases d, 0, n
  {
    if n == 0 {
    } else {
      HashEndsAtMember(src, id, d, n - 1);
      HashEndsAtMember(src, id, e, n - 1);
      MembersIgnoreBound(src, strHash, id, n - 1, hash, d, e);
      HashIgnoresBound(src, strHash, src[id][MemberType(n - 1)], false, d - 1, e - 1);
    }
  }

  // Tables that differ in the members of structs and unions only.
  predicate SameOutsideStructs(src: TypeTable, src': TypeTable) {
    && |src| == |src'|
    && forall i :: 0 <= i < |src| ==>
         && Kind(src[i]) == Kind(src'[i]) && src[i][NAME] == src'[i][NAME]
         && (IsComposite(src[i]) || src[i] == src'[i])
  }

  // Without members a struct is hashed by its name only.
  lemma {:induction false} NamesAreEnough(src: TypeTable, src': TypeTable, strHash: u32 -> u64, id: nat, d: nat)
    requires SameOutsideStructs(src, src') && HashEnds(src, id, false, d)
    ensures HashEnds(src', id, false, d)
    ensures DisambigHash(src, strHash, id, false, d) == DisambigHash(src', strHash, id, false, d)
    decreases d
  {
    assert ValidRecord(src[id], |src|) && ValidRecord(src'[id], |src'|);
    if IsReference(Kind(src[id])) {
      var c := HashNode(Target(src, id), false);
      assert c == HashNode(Target(src', id), false);
      HashEndsAtNext(src, id, false, d, c);
      NamesAreEnough(src, src', strHash, c.id, d - 1);
      assert HashCalls(src')(HashNode(id, false)) == [c];
    } else {
      assert HashCalls(src')(HashNode(id, false)) == [];
    }
  }

  lemma {:induction false} MemberNamesAreEnough(src: TypeTable, src': TypeTable, strHash: u32 -> u64, id: nat, n: nat, hash: u64, d: nat)
    requires SameOutsideStructs(src, src') && HashEnds(src, id, true, d) && HashEnds(src', id, true, d)
    requires src[id] == src'[id] && WellSized(src[id]) && IsComposite(src[id]) && n <= Vlen(src[id])
    ensures HashMembers(src, strHash, id, n, hash, d) == HashMembers(src', strHash, id, n, hash, d)
    decreases n
  {
    if n == 0 {
    } else {
      HashEndsAtMember(src, id, d, n - 1);
      MemberNamesAreEnough(src, src', strHash, id, n - 1, hash, d);
      NamesAreEnough(src, src', strHash, src[id][MemberType(n - 1)], d - 1);
    }
  }

  lemma SameStructEnds(src: TypeTable, src': TypeTable, strHash: u32 -> u64, id: nat, d: nat)
    requires SameOutsideStructs(src, src') && HashEnds(src, id, true, d)
    requires IsComposite(src[id]) && src[id] == src'[id]
    ensures HashEnds(src', id, true, d)
  {
    var x := HashNode(id, true);
    assert ValidRecord(src[id], |src|);
    assert HashCalls(src')(x) == HashCalls(src)(x);
    forall c | c in HashCalls(src)(x)
      ensures Grounded(HashCalls(src'), c, d - 1)
    {
      HashEndsAtNext(src, id, true, d, c);
      NamesAreEnough(src, src', strHash, c.id, d - 1);
    }
  }

  /** The hash goes one level deep: it depends on the struct at the end of the chain, and of all other
      structs on their names only. */
  lemma {:induction false} HashIsOneLevelDeep(src: TypeTable, src': TypeTable, strHash: u32 -> u64, id: nat, d: nat)
    requires SameOutsideStructs(src, src') && HashEnds(src, id, true, d)
    requires Ends(src, id, d) && src[ChainEnd(src, id, d)] == src'[ChainEnd(src, id, d)]
    ensures HashEnds(src', id, true, d)
    ensures DisambigHash(src, strHash, id, true, d) == DisambigHash(src', strHash, id, true, d)
    decreases d
  {
    assert ValidRecord(src[id], |src|) && ValidRecord(src'[id], |src'|);
    if IsReference(Kind(src[id])) {
      var c := HashNode(Target(src, id), true);
      assert c == HashNode(Target(src', id), true);
      HashEndsAtNext(src, id, true, d, c);
      EndsAtTarget(src, id, d);
      HashIsOneLevelDeep(src, src', strHash, c.id, d - 1);
      assert HashCalls(src')(HashNode(id, true)) == [c];
    } else if IsComposite(src[id]) {
      SameStructEnds(src, src', strHash, id, d);
      MemberNamesAreEnough(src, src', strHash, id, Vlen(src[id]), BtfNameHasher(strHash, 0, src[id][NAME]), d);
    } else {
      assert HashCalls(src')(HashNode(id, true)) == [];
    }
  }

  // ---------- The comparison ----------

  function Strcmp(a: string, b: string): int {
    if a == [] && b == [] then 0
    else if a == [] then -1
    else if b == [] then 1
    else if a[0] != b[0] then (a[0] as int) - (b[0] as int)
    else Strcmp(a[1..], b[1..])
  }

  function BtfTypeCompare(d1: SortDatum, d2: SortDatum): int {
    if d1.typeRank != d2.typeRank then d1.typeRank - d2.typeRank
    else if Strcmp(d1.sortName, d2.sortName) != 0 then Strcmp(d1.sortName, d2.sortName)
    else if Strcmp(d1.ownName, d2.ownName) != 0 then Strcmp(d1.ownName, d2.ownName)
    else if d1.disambigHash != d2.disambigHash then (if d1.disambigHash < d2.disambigHash then -1 else 1)
    else d1.index - d2.index
  }

  predicate NotAfter(a: SortDatum, b: SortDatum) { BtfTypeCompare(a, b) <= 0 }

  lemma {:induction false} StrcmpTellsApart(a: string, b: string)
    ensures Strcmp(a, b) == 0 <==> a == b
    ensures Strcmp(a, b) < 0 <==> Strcmp(b, a) > 0
  {
    if a != [] && b != [] && a[0] == b[0] {
      assert a == [a[0]] + a[1..] && b == [b[0]] + b[1..];
      StrcmpTellsApart(a[1..], b[1..]);
    }
  }

  lemma {:induction false} StrcmpIsTransitive(a: string, b: string, c: string)
    ensures Strcmp(a, b) <= 0 && Strcmp(b, c) <= 0 ==> Strcmp(a, c) <= 0
  {
    if a != [] && b != [] && c != [] && a[0] == b[0] == c[0] {
      StrcmpIsTransitive(a[1..], b[1..], c[1..]);
    }
  }

  /** The comparison is a strict total order: data that differ anywhere are told apart, consistently. */
  lemma CompareIsTotalOrder(a: SortDatum, b: SortDatum, c: SortDatum)
    ensures BtfTypeCompare(a, b) == 0 <==> a == b
    ensures BtfTypeCompare(a, b) < 0 <==> BtfTypeCompare(b, a) > 0
    ensures NotAfter(a, b) && NotAfter(b, c) ==> NotAfter(a, c)
  {
    StrcmpTellsApart(a.sortName, b.sortName);
    StrcmpTellsApart(b.sortName, a.sortName);
    StrcmpTellsApart(b.sortName, c.sortName);
    StrcmpTellsApart(a.sortName, c.sortName);
    StrcmpTellsApart(a.ownName, b.ownName);
    StrcmpTellsApart(b.ownName, a.ownName);
    StrcmpTellsApart(b.ownName, c.ownName);
    StrcmpTellsApart(a.ownName, c.ownName);
    StrcmpIsTransitive(a.sortName, b.sortName, c.sortName);
    StrcmpIsTransitive(a.ownName, b.ownName, c.ownName);
  }

  // ---------- What the order is ----------

  /** At the first place where they differ, `a` has the smaller character or is at its end. */
  ghost predicate ComesBefore(a: string, b: string) {
    exists i :: 0 <= i <= |a| && i < |b| && a[..i] == b[..i] && (i < |a| ==> a[i] < b[i])
  }

  /** By rank, then by the two names, then by hash, then by index. */
  ghost predicate Precedes(a: SortDatum, b: SortDatum) {
    || a.typeRank < b.typeRank
    || (a.typeRank == b.typeRank &&
          (|| ComesBefore(a.sortName, b.sortName)
           || (a.sortName == b.sortName &&
                 (|| ComesBefore(a.ownName, b.ownName)
                  || (a.ownName == b.ownName &&
                        (|| a.disambigHash < b.disambigHash
                         || (a.disambigHash == b.disambigHash && a.index < b.index)))))))
  }

  lemma {:induction false} StrcmpIsFirstDifference(a: string, b: string)
    ensures Strcmp(a, b) < 0 <==> ComesBefore(a, b)
  {
    forall i | 0 < i <= |a| && i <= |b| && a[..i] == b[..i]
      ensures a[0] == b[0]
    {
      assert a[..i][0] == a[0] && b[..i][0] == b[0];
    }
    if a != [] && b != [] && a[0] == b[0] {
      StrcmpIsFirstDifference(a[1..], b[1..]);
      assert a == [a[0]] + a[1..] && b == [b[0]] + b[1..];
      if i :| 0 <= i <= |a| - 1 && i < |b| - 1 && a[1..][..i] == b[1..][..i] && (i < |a| - 1 ==> a[1..][i] < b[1..][i]) {
        assert a[..i + 1] == [a[0]] + a[1..][..i] && b[..i + 1] == [b[0]] + b[1..][..i];
      }
      if i :| 0 <= i <= |a| && i < |b| && a[..i] == b[..i] && (i < |a| ==> a[i] < b[i]) {
        assert i > 0;
        assert a[1..][..i - 1] == a[..i][1..] && b[1..][..i - 1] == b[..i][1..];
        assert ComesBefore(a[1..], b[1..]);
      }
    } else if b != [] {
      assert a[..0] == b[..0];
    }
  }

  /** The comparison is negative for exactly the data that come first in this order. */
  lemma CompareIsLexicographic(a: SortDatum, b: SortDatum)
    ensures BtfTypeCompare(a, b) < 0 <==> Precedes(a, b)
  {
    StrcmpIsFirstDifference(a.sortName, b.sortName);
    StrcmpIsFirstDifference(a.ownName, b.ownName);
    StrcmpTellsApart(a.sortName, b.sortName);
    StrcmpTellsApart(a.ownName, b.ownName);
  }

  lemma AnyDataSort(datums: seq<SortDatum>)
    ensures IsSorted(Sort(datums, NotAfter), NotAfter)
    ensures forall a, b :: NotAfter(a, b) && NotAfter(b, a) ==> a == b
  {
    forall a, b, c
      ensures NotAfter(a, b) || NotAfter(b, a)
      ensures NotAfter(a, b) && NotAfter(b, c) ==> NotAfter(a, c)
      ensures NotAfter(a, b) && NotAfter(b, a) ==> a == b
    {
      CompareIsTotalOrder(a, b, c);
    }
    SortIsSorted(datums, NotAfter);
  }

  /** So there is exactly one sorted arrangement of the types, whatever algorithm qsort uses. */
  lemma SortIsUnique(datums: seq<SortDatum>, sorted: seq<SortDatum>)
    requires multiset(sorted) == multiset(datums) && IsSorted(sorted, NotAfter)
    ensures sorted == Sort(datums, NotAfter)
  {
    AnyDataSort(datums);
    SortedIsUnique(sorted, Sort(datums, NotAfter), NotAfter);
  }

  // What is known about a type.
  function DatumOf(src: TypeTable, nameAt: u32 -> string, strHash: u32 -> u64, id: nat, ghost d: nat): SortDatum
    requires id < |src| && forall i: nat :: i < |src| ==> Ends(src, i, d)
  {
    ChainEndsRank(src, id, false, d);
    ChainsEndHash(src, id, d, d);
    SortDatum(id, BtfTypeRank(src, id, false, d), BtfTypeSortName(src, nameAt, id, false, d), nameAt(src[id][NAME]),
              DisambigHash(src, strHash, id, true, d + d))
  }

  function Datums(src: TypeTable, nameAt: u32 -> string, strHash: u32 -> u64, n: nat, ghost d: nat): seq<SortDatum>
    requires n <= |src| && forall i: nat :: i < |src| ==> Ends(src, i, d)
  {
    seq(n, id requires 0 <= id < n => DatumOf(src, nameAt, strHash, id, d))
  }

  lemma {:induction false} RankIgnoresBound(src: TypeTable, id: nat, hasName: bool, d: nat, e: nat)
    requires RankEnds(src, id, hasName, d) && RankEnds(src, id, hasName, e)
    ensures BtfTypeRank(src, id, hasName, d) == BtfTypeRank(src, id, hasName, e)
    decreases d
  {
    if IsReference(Kind(src[id])) && (hasName || src[id][NAME] != 0) {
      RankEndsAtTarget(src, id, hasName, d);
      RankEndsAtTarget(src, id, hasName, e);
      RankIgnoresBound(src, Target(src, id), true, d - 1, e - 1);
    }
  }

  lemma {:induction false} NameIgnoresBound(src: TypeTable, nameAt: u32 -> string, id: nat, fromRef: bool, d: nat, e: nat)
    requires Ends(src, id, d) && Ends(src, id, e)
    ensures BtfTypeSortName(src, nameAt, id, fromRef, d) == BtfTypeSortName(src, nameAt, id, fromRef, e)
    decreases d
  {
    if IsReference(Kind(src[id])) {
      EndsAtTarget(src, id, d);
      EndsAtTarget(src, id, e);
      NameIgnoresBound(src, nameAt, Target(src, id), true, d - 1, e - 1);
    }
  }

  /** What is known about a type does not depend on the bound either. */
  lemma DatumIgnoresBound(src: TypeTable, nameAt: u32 -> string, strHash: u32 -> u64, id: nat, d: nat, e: nat)
    requires id < |src| && forall i: nat :: i < |src| ==> Ends(src, i, d) && Ends(src, i, e)
    ensures DatumOf(src, nameAt, strHash, id, d) == DatumOf(src, nameAt, strHash, id, e)
  {
    ChainEndsRank(src, id, false, d);
    ChainEndsRank(src, id, false, e);
    ChainsEndHash(src, id, d, d);
    ChainsEndHash(src, id, e, e);
    RankIgnoresBound(src, id, false, d, e);
    NameIgnoresBound(src, nameAt, id, false, d, e);
    HashIgnoresBound(src, strHash, id, true, d + d, e + e);
  }

  lemma {:induction false} DatumsDiffer(src: TypeTable, nameAt: u32 -> string, strHash: u32 -> u64, n: nat, d: nat, x: SortDatum)
    requires n <= |src| && forall i: nat :: i < |src| ==> Ends(src, i, d)
    ensures multiset(Datums(src, nameAt, strHash, n, d))[x] <= 1
    ensures x.index >= n ==> x !in Datums(src, nameAt, strHash, n, d)
  {
    if n == 0 {
    } else {
      DatumsDiffer(src, nameAt, strHash, n - 1, d, x);
      assert Datums(src, nameAt, strHash, n, d) ==
             Datums(src, nameAt, strHash, n - 1, d) + [DatumOf(src, nameAt, strHash, n - 1, d)];
    }
  }

  lemma TwiceInBag<T>(s: seq<T>, i: nat, j: nat)
    requires i < j < |s| && s[i] == s[j]
    ensures multiset(s)[s[i]] >= 2
  {
    assert s == s[..j] + [s[j]] + s[j + 1..];
    assert s[..j][i] == s[i];
  }

  // So a sorted arrangement of them goes up at every step.
  lemma SortedAscends(src: TypeTable, nameAt: u32 -> string, strHash: u32 -> u64, d: nat, s: seq<SortDatum>, i: nat, j: nat)
    requires forall k: nat :: k < |src| ==> Ends(src, k, d)
    requires multiset(s) == multiset(Datums(src, nameAt, strHash, |src|, d)) && IsSorted(s, NotAfter) && i < j < |s|
    ensures Precedes(s[i], s[j])
  {
    CompareIsTotalOrder(s[i], s[j], s[j]);
    CompareIsLexicographic(s[i], s[j]);
    if s[i] == s[j] {
      TwiceInBag(s, i, j);
      DatumsDiffer(src, nameAt, strHash, |src|, d, s[i]);
    }
  }

  /** sort_btf_c: the one sorted arrangement of all types. */
  method SortBtfC(src: TypeTable, nameAt: u32 -> string, strHash: u32 -> u64, ghost d: nat)
    returns (datums: array<SortDatum>)
    requires forall i: nat :: i < |src| ==> Ends(src, i, d)
    ensures fresh(datums)
    ensures multiset(datums[..]) == multiset(Datums(src, nameAt, strHash, |src|, d))
    ensures IsSorted(datums[..], NotAfter)
    ensures forall i, j :: 0 <= i < j < datums.Length ==> Precedes(datums[i], datums[j])
  {
    var n := |src|;
    datums := new SortDatum[n](_ => SortDatum(0, 0, "", "", 0));
    for i := 0 to n
      invariant datums[..i] == Datums(src, nameAt, strHash, i, d)
    {
      ChainEndsRank(src, i, false, d);
      ChainsEndHash(src, i, d, d);
      var rank, name := BtfTypeRank(src, i, false, d), BtfTypeSortName(src, nameAt, i, false, d);
      var hash := BtfTypeDisambigHash(src, strHash, i, true, d + d);
      datums[i] := SortDatum(i, rank, name, nameAt(src[i][NAME]), hash);
      assert datums[..i + 1] == datums[..i] + [datums[i]];
    }
    assert datums[..] == datums[..n];
    var sorted := Sort(datums[..], NotAfter);
    assert |sorted| == |multiset(sorted)| == |multiset(datums[..])| == n;
    AnyDataSort(datums[..]);
    forall i | 0 <= i < n {
      datums[i] := sorted[i];
    }
    assert datums[..] == sorted;
    forall i, j | 0 <= i < j < n
      ensures Precedes(datums[i], datums[j])
    {
      SortedAscends(src, nameAt, strHash, d, datums[..], i, j);
    }
  }
}
