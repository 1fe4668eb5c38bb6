/** Replacing maps of an object before it is loaded: the sort, resolve, sort and merge of
    load_with_options in lib/bpftool/src/prog.c. */
module MapReplace {
  import opened Common
  import opened Sorting

  // idx is an int; -1 stands for an index not known yet.
  datatype Replace = Replace(idx: int, fd: int, name: Option<string>)

  // One call of bpf_map__reuse_fd.
  datatype Reuse = Reuse(mapIdx: int, fd: int)

  /** Requests as the command line gives them: a name comes with index -1, a number wraps to int. */
  predicate IsRequest(r: Replace) {
    -0x8000_0000 <= r.idx < 0x8000_0000 && (r.name.Some? ==> r.idx == -1)
  }

  // map_replace_compar; the difference is exact, since its overflow is undefined in C.
  predicate Before(a: Replace, b: Replace) { a.idx - b.idx <= 0 }

  // The first map with the name.
  function FirstNamed(maps: seq<string>, name: string): (i: int)
    ensures i == -1 ==> name !in maps
    ensures i != -1 ==> 0 <= i < |maps| && maps[i] == name && name !in maps[..i]
  {
    if maps == [] then -1
    else if maps[0] == name then 0
    else
      var i := FirstNamed(maps[1..], name);
      assert maps == [maps[0]] + maps[1..];
      assert i != -1 ==> maps[..i + 1] == [maps[0]] + maps[1..][..i];
      if i == -1 then -1 else i + 1
  }

  // The map a request denotes.
  function Wanted(maps: seq<string>, r: Replace): Reuse {
    Reuse(if r.name.Some? then FirstNamed(maps, r.name.value) else r.idx, r.fd)
  }

  function AllWanted(maps: seq<string>, rs: seq<Replace>): (w: seq<Reuse>)
    ensures |w| == |rs| && forall i :: 0 <= i < |rs| ==> w[i] == Wanted(maps, rs[i])
  {
    seq(|rs|, i requires 0 <= i < |rs| => Wanted(maps, rs[i]))
  }

  /** The requests can all be met: each denotes a map, no two denote the same one, and no reuse is
      refused. */
  ghost predicate CanMeet(wanted: seq<Reuse>, n: nat, refused: set<Reuse>) {
    && (forall i :: 0 <= i < |wanted| ==> 0 <= wanted[i].mapIdx < n && wanted[i] !in refused)
    && (forall i, j :: 0 <= i < j < |wanted| ==> wanted[i].mapIdx != wanted[j].mapIdx)
  }

  // ---------- The order of the requests does not matter ----------

  ghost predicate CanMeetBag(wanted: multiset<Reuse>, n: nat, refused: set<Reuse>) {
    && (forall w :: w in wanted ==> 0 <= w.mapIdx < n && w !in refused && wanted[w] == 1)
    && (forall v, w :: v in wanted && w in wanted && v.mapIdx == w.mapIdx ==> v == w)
  }

  lemma CountTwice<T>(s: seq<T>, i: nat, j: nat)
    requires i < j < |s| && s[i] == s[j]
    ensures multiset(s)[s[i]] >= 2
  {
    assert s == s[..j] + s[j..];
    assert s[..j][i] in multiset(s[..j]) && s[j..][0] in multiset(s[j..]);
  }

  lemma CountOnce<T>(s: seq<T>, i: nat)
    requires i < |s| && forall j, k :: 0 <= j < k < |s| ==> s[j] != s[k]
    ensures multiset(s)[s[i]] == 1
  {
    WithoutPlace(s, i);
    var rest := s[..i] + s[i + 1..];
    forall p | 0 <= p < |rest|
      ensures rest[p] != s[i]
    {
      assert rest[p] == s[if p < i then p else p + 1];
    }
    assert s[i] in multiset(s) && multiset(rest)[s[i]] == 0;
  }

  lemma BagOfWanted(wanted: seq<Reuse>, n: nat, refused: set<Reuse>)
    ensures CanMeet(wanted, n, refused) <==> CanMeetBag(multiset(wanted), n, refused)
  {
    var bag := multiset(wanted);
    if CanMeet(wanted, n, refused) {
      forall w | w in bag
        ensures 0 <= w.mapIdx < n && w !in refused && bag[w] == 1
        ensures forall v :: v in bag && v.mapIdx == w.mapIdx ==> v == w
      {
        var i := IndexOf(wanted, w);
        CountOnce(wanted, i);
        forall v | v in bag && v.mapIdx == w.mapIdx
          ensures v == w
        {
          var j := IndexOf(wanted, v);
        }
      }
    }
    if CanMeetBag(bag, n, refused) {
      forall i | 0 <= i < |wanted|
        ensures wanted[i] in bag
      {
      }
      forall i, j | 0 <= i < j < |wanted|
        ensures wanted[i].mapIdx != wanted[j].mapIdx
      {
        if wanted[i].mapIdx == wanted[j].mapIdx {
          CountTwice(wanted, i, j);
        }
      }
    }
  }

  lemma WantedBag(maps: seq<string>, a: seq<Replace>, b: seq<Replace>)
    requires multiset(a) == multiset(b)
    ensures multiset(AllWanted(maps, a)) == multiset(AllWanted(maps, b))
  {
    var f := (r: Replace) => Wanted(maps, r);
    MappedBag(f, a, b);
    assert AllWanted(maps, a) == Mapped(f, a) && AllWanted(maps, b) == Mapped(f, b);
  }

  /** Hence it is the bag of the requests that decides. */
  lemma OrderOfRequests(maps: seq<string>, a: seq<Replace>, b: seq<Replace>, refused: set<Reuse>)
    requires multiset(a) == multiset(b)
    ensures CanMeet(AllWanted(maps, a), |maps|, refused) <==> CanMeet(AllWanted(maps, b), |maps|, refused)
  {
    WantedBag(maps, a, b);
    BagOfWanted(AllWanted(maps, a), |maps|, refused);
    BagOfWanted(AllWanted(maps, b), |maps|, refused);
  }

  // ---------- The steps ----------

  method Qsort(a: array<Replace>)
    modifies a
    ensures multiset(a[..]) == multiset(old(a[..])) && IsSorted(a[..], Before)
  {
    var s := Sort(a[..], Before);
    SortIsSorted(a[..], Before);
    assert |s| == |multiset(s)| == |multiset(a[..])| == a.Length;
    forall i | 0 <= i < a.Length {
      a[i] := s[i];
    }
    assert a[..] == s;
  }

  // An entry whose name has been looked up.
  function Resolved(maps: seq<string>, r: Replace): Replace {
    if r.name.Some? then r.(idx := FirstNamed(maps, r.name.value)) else r
  }

  method FindMap(maps: seq<string>, name: string) returns (idx: int)
    ensures idx == FirstNamed(maps, name)
  {
    idx := -1;
    var i := 0;
    while i < |maps|
      invariant 0 <= i <= |maps| && name !in maps[..i]
    {
      if maps[i] == name {
        idx := i;
        break;
      }
      i := i + 1;
    }
  }

  // The first `j` entries have been looked up.
  ghost predicate IsResolvedTo(maps: seq<string>, was: seq<Replace>, now: seq<Replace>, j: nat) {
    && j <= |was| == |now|
    && (forall i :: 0 <= i < j ==> was[i].name.Some? && now[i] == Resolved(maps, was[i]) && now[i].idx != -1)
    && (forall i :: j <= i < |was| ==> now[i] == was[i])
  }

  /** The names at the front are looked up. */
  method ResolveNames(maps: seq<string>, mapReplace: array<Replace>) returns (ok: bool, j: nat)
    requires forall i :: 0 <= i < mapReplace.Length ==> IsRequest(mapReplace[i])
    modifies mapReplace
    ensures ok ==> IsResolvedTo(maps, old(mapReplace[..]), mapReplace[..], j)
    ensures ok ==> j == mapReplace.Length || mapReplace[j].name.None?
    ensures !ok ==> j < mapReplace.Length && Wanted(maps, old(mapReplace[j])).mapIdx == -1
  {
    j := 0;
    while j < mapReplace.Length && mapReplace[j].name.Some?
      invariant IsResolvedTo(maps, old(mapReplace[..]), mapReplace[..], j)
    {
      var i := FindMap(maps, mapReplace[j].name.value);
      if i != -1 {
        mapReplace[j] := mapReplace[j].(idx := i);
      }
      if mapReplace[j].idx == -1 {
        return false, j;
      }
      j := j + 1;
    }
    ok := true;
  }

  // What has been reused after `j` entries.
  function Done(s: seq<Replace>, j: nat): seq<Reuse>
    requires j <= |s|
  {
    seq(j, i requires 0 <= i < j => Reuse(s[i].idx, s[i].fd))
  }

  /** The maps and the sorted entries are walked side by side. */
  method Merge(n: nat, s: seq<Replace>, refused: set<Reuse>) returns (ok: bool, applied: seq<Reuse>)
    requires IsSorted(s, Before)
    ensures ok <==> CanMeet(Done(s, |s|), n, refused)
    ensures ok ==> applied == Done(s, |s|)
  {
    var j, idx := 0, 0;
    applied := [];
    while idx < n
      invariant 0 <= idx <= n && 0 <= j <= |s| && applied == Done(s, j)
      invariant CanMeet(applied, idx, refused)
      invariant j < |s| ==> s[j].idx >= idx || s[j].idx < 0
    {
      if j < |s| && idx == s[j].idx {
        var call := Reuse(idx, s[j].fd);
        if call in refused {
          assert Done(s, |s|)[j] == call;
          return false, applied;
        }
        applied := applied + [call];
        j := j + 1;
        if j < |s| && s[j].idx == idx {
          assert Done(s, |s|)[j - 1].mapIdx == Done(s, |s|)[j].mapIdx;
          return false, applied;
        }
      }
      idx := idx + 1;
    }
    if j < |s| {
      assert Done(s, |s|)[j].mapIdx == s[j].idx;
      return false, applied;
    }
    ok := true;
  }

  /** The requests are carried out exactly when they can all be met, and then each of them once. */
  method ReplaceMaps(maps: seq<string>, mapReplace: array<Replace>, refused: set<Reuse>) returns (ok: bool, applied: seq<Reuse>)
    requires forall i :: 0 <= i < mapReplace.Length ==> IsRequest(mapReplace[i])
    modifies mapReplace
    ensures ok <==> CanMeet(AllWanted(maps, old(mapReplace[..])), |maps|, refused)
    ensures ok ==> multiset(applied) == multiset(AllWanted(maps, old(mapReplace[..])))
  {
    ghost var given := mapReplace[..];
    applied := [];
    Qsort(mapReplace);
    ghost var sorted := mapReplace[..];
    SameRequests(given, sorted);
    OrderOfRequests(maps, given, sorted, refused);
    WantedBag(maps, given, sorted);
    var j;
    ok, j := ResolveNames(maps, mapReplace);
    if !ok {
      assert AllWanted(maps, sorted)[j].mapIdx == -1;
      return;
    }
    ghost var resolved := mapReplace[..];
    if j > 0 {
      Qsort(mapReplace);
    }
    ok, applied := Merge(|maps|, mapReplace[..], refused);
    ghost var last := mapReplace[..];
    NamesComeFirst(maps, sorted, resolved, j, last, refused);
    if ok {
      assert multiset(applied) == multiset(AllWanted(maps, sorted));
    }
  }

  lemma SameRequests(a: seq<Replace>, b: seq<Replace>)
    requires multiset(a) == multiset(b) && forall i :: 0 <= i < |a| ==> IsRequest(a[i])
    ensures |a| == |b| && forall i :: 0 <= i < |b| ==> IsRequest(b[i])
  {
    assert |a| == |multiset(a)| == |multiset(b)| == |b|;
    forall i | 0 <= i < |b|
      ensures IsRequest(b[i])
    {
      assert b[i] in multiset(b);
      var p := IndexOf(a, b[i]);
    }
  }

  // Entries with an unknown or negative index stand in front; if all of them have names, all names have been
  // looked up.  Otherwise there is an entry that denotes no map.
  lemma NamesComeFirst(maps: seq<string>, sorted: seq<Replace>, resolved: seq<Replace>, j: nat, last: seq<Replace>,
                       refused: set<Reuse>)
    requires IsSorted(sorted, Before) && forall i :: 0 <= i < |sorted| ==> IsRequest(sorted[i])
    requires IsResolvedTo(maps, sorted, resolved, j) && (j == |sorted| || sorted[j].name.None?)
    requires multiset(last) == multiset(resolved)
    ensures CanMeet(Done(last, |last|), |maps|, refused) <==> CanMeet(AllWanted(maps, sorted), |maps|, refused)
    ensures CanMeet(Done(last, |last|), |maps|, refused) ==> multiset(Done(last, |last|)) == multiset(AllWanted(maps, sorted))
  {
    assert |last| == |multiset(last)| == |multiset(resolved)| == |resolved|;
    if j < |sorted| && sorted[j].idx < 0 {
      assert AllWanted(maps, sorted)[j].mapIdx < 0;
      assert resolved[j] in multiset(last);
      var p := IndexOf(last, resolved[j]);
      assert Done(last, |last|)[p].mapIdx < 0;
    } else {
      forall i | j <= i < |sorted|
        ensures sorted[i].name.None?
      {
        assert j < i ==> Before(sorted[j], sorted[i]);
      }
      assert Done(resolved, |resolved|) == AllWanted(maps, sorted);
      DoneBag(last, resolved);
      BagOfWanted(Done(last, |last|), |maps|, refused);
      BagOfWanted(AllWanted(maps, sorted), |maps|, refused);
    }
  }

  lemma DoneBag(a: seq<Replace>, b: seq<Replace>)
    requires multiset(a) == multiset(b)
    ensures multiset(Done(a, |a|)) == multiset(Done(b, |b|))
  {
    var f := (r: Replace) => Reuse(r.idx, r.fd);
    MappedBag(f, a, b);
    assert Done(a, |a|) == Mapped(f, a) && Done(b, |b|) == Mapped(f, b);
  }
}
