/**
 Multiset roots and inclusion proofs of `traigent_schema/example_identity.py`: rows are merged
 by (id, version), sorted and hashed into a Merkle tree.
 */
module ContentIdentity {
  import opened Outcomes
  import opened Sorting
  import opened MerkleTree

  const MAX_COUNT: int := 0x1F_FFFF_FFFF_FFFF // 2^53 - 1

  datatype Error =
    | InvalidMember
    | MemberCountOverflow
    | InvalidKeyId
    | MissingKeyId
    | MixedKeyIds
    | TotalCountOverflow
    | NotALeaf

  /** `ex1`, `exv1` and the colon, as code points. */
  const ID_PREFIX: Text := [101, 120, 49, 58]
  const VERSION_PREFIX: Text := [101, 120, 118, 49, 58]

  predicate IsHex(t: Text) {
    forall c :: c in t ==> 48 <= c <= 57 || 97 <= c <= 102
  }

  /** `k` and sixteen lower-case hexadecimal digits. */
  predicate IsKeyId(t: Text) {
    |t| == 17 && t[0] == 107 && IsHex(t[1..])
  }

  /** The full match of `<prefix><key id>:<64 hexadecimal digits>`. */
  predicate IsToken(prefix: Text, t: Text) {
    && |t| == |prefix| + 82
    && prefix <= t
    && IsKeyId(t[|prefix|..|prefix| + 17])
    && t[|prefix| + 17] == 58
    && IsHex(t[|prefix| + 18..])
  }

  /** What a member must satisfy to be constructed at all. */
  predicate ValidMember(m: Member) {
    && IsToken(ID_PREFIX, m.exampleId)
    && IsToken(VERSION_PREFIX, m.exampleVersion)
    && m.exampleId[4..21] == m.exampleVersion[5..22]
    && 1 <= m.count <= MAX_COUNT
  }

  /** The key id a well-formed member carries. */
  function KeyIdOf(m: Member): Text
    requires ValidMember(m)
  {
    m.exampleId[4..21]
  }

  /** The text is a lower-case hexadecimal string of this length. */
  predicate HexOf(t: Text, n: nat) {
    |t| == n && forall i :: 0 <= i < n ==> '0' as nat <= t[i] <= '9' as nat || 'a' as nat <= t[i] <= 'f' as nat
  }

  /**
   Valid members are the rows `ex1:k<16 hex>:<64 hex>` and `exv1:k<16 hex>:<64 hex>` of one key id,
   which is the one they are filed under.
   */
  lemma ValidMemberIff(m: Member)
    ensures ValidMember(m) <==>
            && (exists k, d, d' :: HexOf(k, 16) && HexOf(d, 64) && HexOf(d', 64)
                                   && m.exampleId == Ascii("ex1:k") + k + Ascii(":") + d
                                   && m.exampleVersion == Ascii("exv1:k") + k + Ascii(":") + d')
            && 1 <= m.count <= 9_007_199_254_740_991
    ensures ValidMember(m) ==> exists k :: HexOf(k, 16) && KeyIdOf(m) == Ascii("k") + k
  {
    hide IsToken, HexOf, IsKeyId, Ascii, ID_PREFIX, VERSION_PREFIX;
    if ValidMember(m) {
      var k := MemberParts(m);
    }
    if k, d, d' :| HexOf(k, 16) && HexOf(d, 64) && HexOf(d', 64)
                   && m.exampleId == Ascii("ex1:k") + k + Ascii(":") + d
                   && m.exampleVersion == Ascii("exv1:k") + k + Ascii(":") + d' {
      PartsMakeMember(m, k, d, d');
    }
  }

  lemma MemberParts(m: Member) returns (k: Text)
    requires ValidMember(m)
    ensures HexOf(k, 16) && KeyIdOf(m) == Ascii("k") + k
    ensures exists d, d' :: HexOf(d, 64) && HexOf(d', 64)
                            && m.exampleId == Ascii("ex1:k") + k + Ascii(":") + d
                            && m.exampleVersion == Ascii("exv1:k") + k + Ascii(":") + d'
  {
    hide IsToken, HexOf, IsKeyId;
    var d, k', d';
    k, d := TokenParts("ex1:", ID_PREFIX, m.exampleId);
    k', d' := TokenParts("exv1:", VERSION_PREFIX, m.exampleVersion);
    assert k == (Ascii("k") + k)[1..] && k' == (Ascii("k") + k')[1..];
    assert k == k' && Ascii("ex1:k") == Ascii("ex1:") + Ascii("k") && Ascii("exv1:k") == Ascii("exv1:") + Ascii("k");
  }

  lemma PartsMakeMember(m: Member, k: Text, d: Text, d': Text)
    requires HexOf(k, 16) && HexOf(d, 64) && HexOf(d', 64)
    requires m.exampleId == Ascii("ex1:k") + k + Ascii(":") + d && m.exampleVersion == Ascii("exv1:k") + k + Ascii(":") + d'
    ensures ValidMember(m) <==> 1 <= m.count <= MAX_COUNT
  {
    hide IsToken, HexOf, IsKeyId;
    PartsMakeToken("ex1:", ID_PREFIX, k, d);
    PartsMakeToken("exv1:", VERSION_PREFIX, k, d');
    assert Ascii("ex1:k") == Ascii("ex1:") + Ascii("k") && Ascii("exv1:k") == Ascii("exv1:") + Ascii("k");
  }

  lemma TokenParts(word: string, prefix: Text, t: Text) returns (k: Text, d: Text)
    requires prefix == Ascii(word) && IsToken(prefix, t)
    ensures HexOf(k, 16) && HexOf(d, 64) && t == Ascii(word) + Ascii("k") + k + Ascii(":") + d
    ensures t[|prefix|..|prefix| + 17] == Ascii("k") + k
  {
    var n := |prefix|;
    k, d := t[n + 1..n + 17], t[n + 18..];
    var id := t[n..n + 17];
    assert id == [t[n]] + k && id[1..] == k && id[0] == t[n];
    HexIs(k, 16);
    HexIs(d, 64);
    assert t == t[..n] + id + [t[n + 17]] + d;
  }

  lemma HexIs(t: Text, n: nat)
    requires |t| == n && IsHex(t)
    ensures HexOf(t, n)
  {
    forall i | 0 <= i < n ensures '0' as nat <= t[i] <= '9' as nat || 'a' as nat <= t[i] <= 'f' as nat {
      assert t[i] in t;
    }
  }

  lemma PartsMakeToken(word: string, prefix: Text, k: Text, d: Text)
    requires prefix == Ascii(word) && HexOf(k, 16) && HexOf(d, 64)
    ensures var t := Ascii(word) + Ascii("k") + k + Ascii(":") + d;
            IsToken(prefix, t) && t[|prefix|..|prefix| + 17] == Ascii("k") + k
  {
    var n, t := |prefix|, Ascii(word) + Ascii("k") + k + Ascii(":") + d;
    assert t[n..n + 17] == Ascii("k") + k && (Ascii("k") + k)[1..] == k && t[n + 18..] == d && t[..n] == prefix;
  }

  type Pair = (Text, Text)

  function PairOf(m: Member): Pair {
    (m.exampleId, m.exampleVersion)
  }

  /** How often a pair occurs in a bag of rows, counts summed. */
  ghost function Total(items: seq<Member>, p: Pair): int {
    if items == [] then 0
    else (if PairOf(items[0]) == p then items[0].count else 0) + Total(items[1..], p)
  }

  /** Every pair occurs equally often in both bags. */
  ghost predicate SameMultiset(a: seq<Member>, b: seq<Member>) {
    forall p: Pair :: Total(a, p) == Total(b, p)
  }

  ghost predicate SomeCountOverflows(items: seq<Member>) {
    exists p: Pair :: Total(items, p) > MAX_COUNT
  }

  lemma {:induction false} TotalAppend(items: seq<Member>, m: Member, p: Pair)
    ensures Total(items + [m], p) == Total(items, p) + if PairOf(m) == p then m.count else 0
  {
    if items != [] {
      TotalAppend(items[1..], m, p);
      assert (items + [m])[1..] == items[1..] + [m];
    }
  }

  lemma {:induction false} TotalNonNegative(items: seq<Member>, p: Pair)
    requires forall m :: m in items ==> ValidMember(m)
    ensures Total(items, p) >= 0
  {
    if items != [] {
      TotalNonNegative(items[1..], p);
      assert items[0] in items;
    }
  }

  /** A pair with a positive total comes from a row. */
  lemma {:induction false} TotalComesFromRow(items: seq<Member>, p: Pair) returns (m: Member)
    requires Total(items, p) > 0
    ensures m in items && PairOf(m) == p
  {
    if PairOf(items[0]) == p {
      m := items[0];
    } else {
      m := TotalComesFromRow(items[1..], p);
    }
  }

  lemma {:induction false} TotalGrows(items: seq<Member>, n: nat, p: Pair)
    requires (forall m :: m in items ==> ValidMember(m)) && n <= |items|
    ensures Total(items[..n], p) <= Total(items, p)
    decreases |items| - n
  {
    if n < |items| {
      TotalGrows(items, n + 1, p);
      assert items[..n + 1] == items[..n] + [items[n]];
      TotalAppend(items[..n], items[n], p);
      assert items[n] in items;
    } else {
      assert items[..n] == items;
    }
  }

  // ----- normalisation

  /**
   The normal form of a bag: pairs strictly in order, each with its summed count.  The counts
   are positive, so a pair is listed exactly when it occurs.
   */
  ghost predicate NormalFormOf(members: seq<Member>, items: seq<Member>) {
    && Distinct(Pairs(members)) && Sorted(Pairs(members), PairLeq)
    && (forall p: Pair :: p in Pairs(members) <==> Total(items, p) > 0)
    && (forall i :: 0 <= i < |members| ==> members[i].count == Total(items, Pairs(members)[i]))
  }

  ghost function Pairs(members: seq<Member>): (pairs: seq<Pair>)
    ensures |pairs| == |members|
    ensures forall i :: 0 <= i < |members| ==> pairs[i] == PairOf(members[i])
  {
    seq(|members|, i requires 0 <= i < |members| => PairOf(members[i]))
  }

  /** A listed member is the sum of its rows, and every row that occurs is listed. */
  lemma MembersAreTotals(members: seq<Member>, items: seq<Member>, m: Member)
    requires NormalFormOf(members, items) && m in members
    ensures PairOf(m) in Pairs(members) && m.count == Total(items, PairOf(m)) > 0
  {
    var i :| 0 <= i < |members| && members[i] == m;
    assert Pairs(members)[i] == PairOf(m);
  }

  lemma RowsAreListed(members: seq<Member>, items: seq<Member>, row: Member)
    requires (forall m :: m in items ==> ValidMember(m)) && row in items && NormalFormOf(members, items)
    ensures PairOf(row) in Pairs(members)
  {
    var i :| 0 <= i < |items| && items[i] == row;
    assert items[..i + 1] == items[..i] + [row];
    TotalAppend(items[..i], row, PairOf(row));
    TotalNonNegative(items[..i], PairOf(row));
    TotalGrows(items, i + 1, PairOf(row));
  }

  method Normalize(items: seq<Member>) returns (r: Result<seq<Member>, Error>)
    ensures r == Err(InvalidMember) <==> exists m :: m in items && !ValidMember(m)
    ensures r == Err(MemberCountOverflow) <==>
            (forall m :: m in items ==> ValidMember(m)) && SomeCountOverflows(items)
    ensures r.Err? ==> r.error in {InvalidMember, MemberCountOverflow}
    ensures r.Ok? ==> NormalFormOf(r.value, items) && forall m :: m in r.value ==> ValidMember(m)
  {
    hide Total, ValidMember, NormalFormOf;
    for i := 0 to |items|
      invariant forall m :: m in items[..i] ==> ValidMember(m)
    {
      if !ValidMember(items[i]) {
        return Err(InvalidMember);
      }
    }
    assert items[..|items|] == items;
    var order: seq<Pair> := []; // the dictionary's keys, in insertion order
    var totals: map<Pair, int> := map[];
    NoTotals(items);
    for i := 0 to |items|
      invariant TotalsOf(totals, order, items[..i])
    {
      var p := PairOf(items[i]);
      var count := (if p in totals then totals[p] else 0) + items[i].count;
      StepTotals(items, i, totals, order);
      if p !in totals {
        order := order + [p];
      }
      totals := totals[p := count];
      if count > MAX_COUNT {
        TotalGrows(items, i + 1, p);
        return Err(MemberCountOverflow);
      }
    }
    assert items[..|items|] == items;
    var sorted := Sort(order, PairLeq);
    assert forall i :: 0 <= i < |sorted| ==> sorted[i] in multiset(sorted);
    var members := seq(|sorted|, i requires 0 <= i < |sorted| =>
                                   Member(sorted[i].0, sorted[i].1, totals[sorted[i]]));
    FinishNormalForm(items, order, totals, sorted, members);
    r := Ok(members);
  }

  /** The dictionary of running totals, none of them above the limit, and its keys in order. */
  ghost predicate TotalsOf(totals: map<Pair, int>, order: seq<Pair>, items: seq<Member>) {
    && Distinct(order)
    && (forall p: Pair :: p in order <==> p in totals)
    && (forall p: Pair :: p in totals <==> Total(items, p) > 0)
    && (forall p: Pair :: p in totals ==> totals[p] == Total(items, p) <= MAX_COUNT)
  }

  lemma NoTotals(items: seq<Member>)
    ensures TotalsOf(map[], [], items[..0])
  {
  }

  /** Adding one row changes the total of its own pair and no other. */
  lemma StepTotals(items: seq<Member>, i: nat, totals: map<Pair, int>, order: seq<Pair>)
    requires i < |items| && (forall m :: m in items ==> ValidMember(m)) && TotalsOf(totals, order, items[..i])
    ensures var p := PairOf(items[i]);
            var count := (if p in totals then totals[p] else 0) + items[i].count;
            && count == Total(items[..i + 1], p)
            && (count <= MAX_COUNT ==>
                  TotalsOf(totals[p := count], if p in totals then order else order + [p], items[..i + 1]))
  {
    assert items[..i + 1] == items[..i] + [items[i]];
    assert ValidMember(items[i]);
    forall q: Pair
      ensures Total(items[..i + 1], q)
           == Total(items[..i], q) + if PairOf(items[i]) == q then items[i].count else 0
      ensures Total(items[..i], q) >= 0
    {
      TotalAppend(items[..i], items[i], q);
      TotalNonNegative(items[..i], q);
    }
  }

  /** Sorting the collected pairs gives the normal form. */
  lemma FinishNormalForm(
    items: seq<Member>, order: seq<Pair>, totals: map<Pair, int>, sorted: seq<Pair>, members: seq<Member>)
    requires (forall m :: m in items ==> ValidMember(m)) && TotalsOf(totals, order, items)
    requires sorted == Sort(order, PairLeq) && |members| == |sorted|
    requires forall i :: 0 <= i < |sorted| ==>
               sorted[i] in totals && members[i] == Member(sorted[i].0, sorted[i].1, totals[sorted[i]])
    ensures NormalFormOf(members, items)
    ensures forall m :: m in members ==> ValidMember(m)
    ensures forall p: Pair :: Total(items, p) <= MAX_COUNT
  {
    PairIsTotalOrder();
    SortIsSorted(order, PairLeq);
    DistinctSurvivesPermutation(order, sorted);
    assert Pairs(members) == sorted;
    forall p: Pair ensures p in sorted <==> p in totals {
      assert p in multiset(sorted) <==> p in multiset(order);
    }
    forall i | 0 <= i < |members| ensures ValidMember(members[i]) {
      var row := TotalComesFromRow(items, sorted[i]);
    }
  }

  /** Leaves ascend by id, and by version between equal ids; no pair is listed twice. */
  lemma NormalFormAscends(members: seq<Member>, items: seq<Member>, i: nat, j: nat)
    requires NormalFormOf(members, items) && i < j < |members|
    ensures Precedes(members[i].exampleId, members[j].exampleId)
            || (members[i].exampleId == members[j].exampleId && Precedes(members[i].exampleVersion, members[j].exampleVersion))
  {
    hide Precedes, PairLeq;
    PairLeqIffPrecedes(Pairs(members)[i], Pairs(members)[j]);
  }

  /** Two bags with the same totals have the same normal form. */
  lemma NormalFormIsUnique(a: seq<Member>, itemsA: seq<Member>, b: seq<Member>, itemsB: seq<Member>)
    requires NormalFormOf(a, itemsA) && NormalFormOf(b, itemsB)
    requires SameMultiset(itemsA, itemsB)
    ensures a == b
  {
    var pa, pb := Pairs(a), Pairs(b);
    DistinctMultiset(pa);
    DistinctMultiset(pb);
    assert (set p | p in pa) == (set p | p in pb);
    PairIsTotalOrder();
    SortedIsUnique(pa, pb, PairLeq);
    forall i | 0 <= i < |a| ensures a[i] == b[i] {
      assert pa[i] == pb[i];
    }
  }

  // ----- conservation of counts

  ghost function SumCounts(items: seq<Member>): int {
    if items == [] then 0 else items[0].count + SumCounts(items[1..])
  }

  /** The totals of a list of pairs, added up. */
  ghost function SumTotals(pairs: seq<Pair>, items: seq<Member>): int {
    if pairs == [] then 0 else Total(items, pairs[0]) + SumTotals(pairs[1..], items)
  }

  /** Dropping the first row takes its count from the total of its own pair alone. */
  lemma {:induction false} SumTotalsStep(pairs: seq<Pair>, items: seq<Member>)
    requires Distinct(pairs) && items != []
    ensures SumTotals(pairs, items)
         == SumTotals(pairs, items[1..]) + if PairOf(items[0]) in pairs then items[0].count else 0
  {
    if pairs != [] {
      SumTotalsStep(pairs[1..], items);
      assert pairs == [pairs[0]] + pairs[1..];
    }
  }

  /** Merging rows neither loses nor invents occurrences. */
  lemma {:induction false} CountsAreConserved(pairs: seq<Pair>, items: seq<Member>)
    requires Distinct(pairs) && forall m :: m in items ==> PairOf(m) in pairs
    ensures SumTotals(pairs, items) == SumCounts(items)
    decreases |items|, |pairs|
  {
    if items != [] {
      SumTotalsStep(pairs, items);
      assert items[0] in items;
      CountsAreConserved(pairs, items[1..]);
    } else if pairs != [] {
      CountsAreConserved(pairs[1..], items);
    }
  }

  lemma {:induction false} SumCountsOfMembers(members: seq<Member>, items: seq<Member>)
    requires forall m :: m in members ==> m.count == Total(items, PairOf(m))
    ensures SumCounts(members) == SumTotals(Pairs(members), items)
  {
    if members != [] {
      SumCountsOfMembers(members[1..], items);
      assert Pairs(members)[1..] == Pairs(members[1..]);
      assert members[0] in members;
    }
  }

  lemma NormalFormConservesCounts(members: seq<Member>, items: seq<Member>)
    requires (forall m :: m in items ==> ValidMember(m)) && NormalFormOf(members, items)
    ensures SumCounts(members) == SumCounts(items)
  {
    forall m | m in items ensures PairOf(m) in Pairs(members) {
      RowsAreListed(members, items, m);
    }
    forall m | m in members ensures m.count == Total(items, PairOf(m)) {
      MembersAreTotals(members, items, m);
    }
    CountsAreConserved(Pairs(members), items);
    SumCountsOfMembers(members, items);
  }

  // ----- roots

  /** `msr1:<key id>:<hash>`. */
  datatype Root = Root(keyId: Text, hash: Digest)

  datatype MultisetRoot = MultisetRoot(root: Root, keyId: Text, members: seq<Member>, totalCount: int)

  /** What a root computed from `items` holds. */
  ghost predicate IsRootOf(r: MultisetRoot, items: seq<Member>) {
    && NormalFormOf(r.members, items)
    && (forall m :: m in r.members ==> ValidMember(m) && KeyIdOf(m) == r.keyId)
    && r.root == Root(r.keyId, Mth(LeafHashes(r.members)))
    && r.totalCount == SumCounts(items) <= MAX_COUNT
  }

  /** The key ids that must agree: one per row, and the caller's own. */
  ghost predicate UsesKeyId(items: seq<Member>, keyId: Option<Text>, k: Text)
    requires forall m :: m in items ==> ValidMember(m)
  {
    keyId == Some(k) || exists m :: m in items && KeyIdOf(m) == k
  }

  /** Why these rows have no root. */
  ghost predicate Fails(items: seq<Member>, keyId: Option<Text>, e: Error) {
    match e
    case InvalidMember => exists m :: m in items && !ValidMember(m)
    case MemberCountOverflow => SomeCountOverflows(items)
    case InvalidKeyId => keyId.Some? && !IsKeyId(keyId.value)
    case MissingKeyId => items == [] && keyId.None?
    case MixedKeyIds =>
      && (forall m :: m in items ==> ValidMember(m))
      && exists k, k' :: k != k' && UsesKeyId(items, keyId, k) && UsesKeyId(items, keyId, k')
    case TotalCountOverflow => SumCounts(items) > MAX_COUNT
    case NotALeaf => false
  }

  /** A root is computed exactly when none of the reasons applies, and it is the root of the rows. */
  method ComputeMultisetRoot(items: seq<Member>, keyId: Option<Text>) returns (r: Result<MultisetRoot, Error>)
    ensures r.Err? ==> Fails(items, keyId, r.error)
    ensures r.Ok? ==> IsRootOf(r.value, items) && forall e :: !Fails(items, keyId, e)
    ensures r.Ok? && keyId.Some? ==> r.value.keyId == keyId.value
  {
    var normal := Normalize(items);
    if normal.Err? {
      return Err(normal.error);
    }
    var members := normal.value;
    if keyId.Some? && !IsKeyId(keyId.value) {
      return Err(InvalidKeyId);
    }
    var key := SingleKeyId(members, keyId, items);
    if key.Err? {
      return Err(key.error);
    }
    var total := SumOfCounts(members);
    NormalFormConservesCounts(members, items);
    if total > MAX_COUNT {
      return Err(TotalCountOverflow);
    }
    r := Ok(MultisetRoot(Root(key.value, Mth(LeafHashes(members))), key.value, members, total));
  }

  /** The one key id shared by the members and the caller. */
  method SingleKeyId(members: seq<Member>, keyId: Option<Text>, ghost items: seq<Member>)
    returns (r: Result<Text, Error>)
    requires (forall m :: m in items ==> ValidMember(m)) && (forall m :: m in members ==> ValidMember(m))
    requires NormalFormOf(members, items)
    ensures r.Err? ==> r.error in {MissingKeyId, MixedKeyIds} && Fails(items, keyId, r.error)
    ensures r.Ok? ==> !Fails(items, keyId, MissingKeyId) && !Fails(items, keyId, MixedKeyIds)
    ensures r.Ok? ==> forall m :: m in members ==> KeyIdOf(m) == r.value
    ensures r.Ok? && keyId.Some? ==> r.value == keyId.value
  {
    var keys := (set m | m in members :: KeyIdOf(m)) + if keyId.Some? then {keyId.value} else {};
    KeysOfNormalForm(members, items, keyId, keys);
    if keys == {} {
      return Err(MissingKeyId);
    }
    var key :| key in keys;
    if keys != {key} {
      var other :| other in keys && other != key;
      assert UsesKeyId(items, keyId, key) && UsesKeyId(items, keyId, other);
      return Err(MixedKeyIds);
    }
    assert forall m :: m in members ==> KeyIdOf(m) in keys;
    assert UsesKeyId(items, keyId, key);
    r := Ok(key);
  }

  method SumOfCounts(members: seq<Member>) returns (total: int)
    ensures total == SumCounts(members)
  {
    total := 0;
    for i := 0 to |members|
      invariant total == SumCounts(members[..i])
    {
      SumCountsAppend(members[..i], members[i]);
      assert members[..i + 1] == members[..i] + [members[i]];
      total := total + members[i].count;
    }
    assert members[..|members|] == members;
  }

  lemma {:induction false} SumCountsAppend(members: seq<Member>, m: Member)
    ensures SumCounts(members + [m]) == SumCounts(members) + m.count
  {
    if members != [] {
      SumCountsAppend(members[1..], m);
      assert (members + [m])[1..] == members[1..] + [m];
    }
  }

  /** Merging keeps exactly the key ids of the rows. */
  lemma KeysOfNormalForm(members: seq<Member>, items: seq<Member>, keyId: Option<Text>, keys: set<Text>)
    requires (forall m :: m in items ==> ValidMember(m)) && (forall m :: m in members ==> ValidMember(m))
    requires NormalFormOf(members, items)
    requires keys == (set m | m in members :: KeyIdOf(m)) + if keyId.Some? then {keyId.value} else {}
    ensures forall k :: k in keys <==> UsesKeyId(items, keyId, k)
    ensures keys != {} <==> items != [] || keyId.Some?
  {
    forall m | m in members ensures UsesKeyId(items, keyId, KeyIdOf(m)) {
      MembersAreTotals(members, items, m);
      var row := TotalComesFromRow(items, PairOf(m));
    }
    forall row | row in items ensures KeyIdOf(row) in keys {
      RowsAreListed(members, items, row);
      var i :| 0 <= i < |members| && Pairs(members)[i] == PairOf(row);
      assert members[i] in members;
    }
    if items != [] {
      assert items[0] in items;
      assert KeyIdOf(items[0]) in keys;
    }
    if members != [] {
      MembersAreTotals(members, items, members[0]);
    }
  }

  /**
   The root is a name for the multiset: two bags of rows get the same root exactly when they
   share the key id and hold every pair equally often, whatever the order and grouping.
   */
  lemma SameRootIffSameMultiset(a: MultisetRoot, itemsA: seq<Member>, b: MultisetRoot, itemsB: seq<Member>)
    requires IsRootOf(a, itemsA) && IsRootOf(b, itemsB)
    requires (forall m :: m in itemsA ==> ValidMember(m)) && (forall m :: m in itemsB ==> ValidMember(m))
    ensures a.root == b.root <==> a.keyId == b.keyId && SameMultiset(itemsA, itemsB)
  {
    if a.root == b.root {
      TreeHashIsInjective(a.members, b.members);
      forall p: Pair ensures Total(itemsA, p) == Total(itemsB, p) {
        TotalNonNegative(itemsA, p);
        TotalNonNegative(itemsB, p);
        if p in Pairs(a.members) {
          var i :| 0 <= i < |a.members| && Pairs(a.members)[i] == p;
        }
      }
      assert a.keyId == b.keyId;
    }
    if a.keyId == b.keyId && SameMultiset(itemsA, itemsB) {
      NormalFormIsUnique(a.members, itemsA, b.members, itemsB);
      assert a.root == b.root;
    }
  }

  /** `available` maps every pair of the outer multiset to its count. */
  method IsSubMultiset(inner: MultisetRoot, outer: MultisetRoot, ghost itemsIn: seq<Member>, ghost itemsOut: seq<Member>)
    returns (b: bool)
    requires IsRootOf(inner, itemsIn) && IsRootOf(outer, itemsOut)
    requires (forall m :: m in itemsIn ==> ValidMember(m)) && (forall m :: m in itemsOut ==> ValidMember(m))
    ensures b <==> inner.keyId == outer.keyId && forall p: Pair :: Total(itemsIn, p) <= Total(itemsOut, p)
  {
    hide Total, ValidMember, KeyIdOf, Mth;
    if inner.keyId != outer.keyId {
      return false;
    }
    var available: map<Pair, int> := map[];
    for i := 0 to |outer.members|
      invariant forall p: Pair :: p in available <==> p in Pairs(outer.members)[..i]
      invariant forall p: Pair :: p in available ==> available[p] == Total(itemsOut, p)
    {
      var m := outer.members[i];
      assert Pairs(outer.members)[..i + 1] == Pairs(outer.members)[..i] + [PairOf(m)];
      available := available[PairOf(m) := m.count];
    }
    assert Pairs(outer.members)[..|outer.members|] == Pairs(outer.members);
    for i := 0 to |inner.members|
      invariant forall p: Pair :: p in Pairs(inner.members)[..i] ==> Total(itemsIn, p) <= Total(itemsOut, p)
    {
      var m, p := inner.members[i], PairOf(inner.members[i]);
      assert Pairs(inner.members)[..i + 1] == Pairs(inner.members)[..i] + [p];
      TotalNonNegative(itemsOut, p);
      if (if p in available then available[p] else 0) < m.count {
        return false;
      }
    }
    assert Pairs(inner.members)[..|inner.members|] == Pairs(inner.members);
    forall p: Pair ensures Total(itemsIn, p) <= Total(itemsOut, p) {
      TotalNonNegative(itemsOut, p);
    }
    b := true;
  }

  // ----- inclusion proofs

  /**
   A proof as a verifier receives it: a root text or audit node that does not parse is None,
   index and size are any integers.
   */
  datatype InclusionProof = InclusionProof(
    member: Member, leafIndex: int, treeSize: int, auditPath: seq<Option<Digest>>, root: Option<Root>)

  ghost predicate IsProofFor(proof: InclusionProof, r: MultisetRoot, m: Member) {
    && proof.member == m
    && 0 <= proof.leafIndex < |r.members| == proof.treeSize
    && r.members[proof.leafIndex] == m
    && proof.root == Some(r.root)
    && proof.auditPath == Decodable(Path(proof.leafIndex, LeafHashes(r.members)))
  }

  function Decodable(path: seq<Digest>): seq<Option<Digest>> {
    seq(|path|, i requires 0 <= i < |path| => Some(path[i]))
  }

  method BuildInclusionProof(r: MultisetRoot, m: Member) returns (proof: Result<InclusionProof, Error>)
    ensures proof.Ok? <==> m in r.members
    ensures proof.Ok? ==> IsProofFor(proof.value, r, m)
    ensures proof.Err? ==> proof.error == NotALeaf
  {
    for i := 0 to |r.members|
      invariant m !in r.members[..i]
    {
      if r.members[i] == m {
        var path := Path(i, LeafHashes(r.members));
        return Ok(InclusionProof(m, i, |r.members|, Decodable(path), Some(r.root)));
      }
    }
    assert r.members[..|r.members|] == r.members;
    proof := Err(NotALeaf);
  }

  /** What the verifier accepts, in terms of the top-down tree shape. */
  ghost predicate Accepts(proof: InclusionProof)
    requires ValidMember(proof.member)
  {
    && proof.root.Some? && proof.root.value.keyId == KeyIdOf(proof.member)
    && 0 <= proof.leafIndex < proof.treeSize
    && (forall i :: 0 <= i < |proof.auditPath| ==> proof.auditPath[i].Some?)
    && var path := Decoded(proof.auditPath);
       RootAlong(proof.leafIndex, proof.treeSize, LeafHash(proof.member), path, 0, |path|)
         == Some(proof.root.value.hash)
  }

  function Decoded(nodes: seq<Option<Digest>>): seq<Digest>
    requires forall i :: 0 <= i < |nodes| ==> nodes[i].Some?
  {
    seq(|nodes|, i requires 0 <= i < |nodes| => nodes[i].value)
  }

  method VerifyInclusionProof(proof: InclusionProof) returns (b: bool)
    requires ValidMember(proof.member) // a member object cannot exist otherwise
    ensures b <==> Accepts(proof)
  {
    if proof.root.None? || proof.root.value.keyId != KeyIdOf(proof.member) {
      return false;
    }
    if !(0 <= proof.leafIndex < proof.treeSize) {
      return false;
    }
    var path: seq<Digest> := [];
    for i := 0 to |proof.auditPath|
      invariant |path| == i
      invariant forall j :: 0 <= j < i ==> proof.auditPath[j] == Some(path[j])
    {
      if proof.auditPath[i].None? {
        return false;
      }
      path := path + [proof.auditPath[i].value];
    }
    assert path == Decoded(proof.auditPath);
    var computed := FoldAuditPath(LeafHash(proof.member), path, proof.leafIndex, proof.treeSize - 1);
    b := computed == Some(proof.root.value.hash);
  }

  /** Completeness: every proof that is built verifies. */
  lemma BuiltProofsVerify(r: MultisetRoot, items: seq<Member>, m: Member, proof: InclusionProof)
    requires IsRootOf(r, items) && m in r.members && IsProofFor(proof, r, m)
    ensures Accepts(proof)
  {
    var leaves := LeafHashes(r.members);
    var path := Path(proof.leafIndex, leaves);
    assert Decoded(proof.auditPath) == path == path[..|path|];
    OnlyTruePathReachesRoot(proof.leafIndex, leaves, LeafHash(m), path, |path|);
  }

  /** The turns a proof's claimed index and size stand for. */
  function ClaimedTurns(proof: InclusionProof): seq<bool>
    requires 0 <= proof.leafIndex < proof.treeSize
  {
    Turns(proof.leafIndex, proof.treeSize)
  }

  /** The proof carries member m and its audit path, and its claim takes the turns of m's true place. */
  ghost predicate ProvesMember(proof: InclusionProof, r: MultisetRoot, m: nat) {
    && m < |r.members| && r.members[m] == proof.member
    && proof.auditPath == Decodable(Path(m, LeafHashes(r.members)))
    && 0 <= proof.leafIndex < proof.treeSize
    && ClaimedTurns(proof) == Turns(m, |r.members|)
  }

  /**
   The exact theorem: a proof against a multiset's root is accepted exactly when it carries some
   member with that member's audit path, under any index and size that take the same turns.
   */
  lemma AcceptedIffProvesMember(r: MultisetRoot, items: seq<Member>, proof: InclusionProof)
    requires IsRootOf(r, items) && ValidMember(proof.member) && proof.root == Some(r.root)
    ensures Accepts(proof) <==> exists m :: ProvesMember(proof, r, m)
  {
    if Accepts(proof) {
      var m := AcceptedProvesMember(r, items, proof);
    }
    if m: nat :| ProvesMember(proof, r, m) {
      ProvedMemberAccepted(r, items, proof, m);
    }
  }

  lemma AcceptedProvesMember(r: MultisetRoot, items: seq<Member>, proof: InclusionProof) returns (m: nat)
    requires IsRootOf(r, items) && ValidMember(proof.member) && proof.root == Some(r.root) && Accepts(proof)
    ensures ProvesMember(proof, r, m)
  {
    RootHashOf(r, items);
    hide IsRootOf, RootAlong, ValidMember, KeyIdOf, Turns, Path, Mth;
    var path := Decoded(proof.auditPath);
    m := ReachedIsNamed(proof.leafIndex, proof.treeSize, proof.member, path, r.members);
    assert Decodable(path) == proof.auditPath;
  }

  lemma ProvedMemberAccepted(r: MultisetRoot, items: seq<Member>, proof: InclusionProof, m: nat)
    requires IsRootOf(r, items) && ValidMember(proof.member) && proof.root == Some(r.root) && ProvesMember(proof, r, m)
    ensures Accepts(proof)
  {
    RootHashOf(r, items);
    hide IsRootOf, RootAlong, ValidMember, KeyIdOf, Turns, Path, Mth;
    assert proof.member in r.members;
    var path := Path(m, LeafHashes(r.members));
    assert Names(r.members, m, proof.member, path, Turns(proof.leafIndex, proof.treeSize));
    NamedReachesRoot(m, proof.leafIndex, proof.treeSize, proof.member, path, r.members);
    assert Decoded(proof.auditPath) == path;
    assert r.root.keyId == r.keyId == KeyIdOf(proof.member);
  }

  lemma RootHashOf(r: MultisetRoot, items: seq<Member>)
    requires IsRootOf(r, items)
    ensures r.root == Root(r.keyId, Mth(LeafHashes(r.members)))
    ensures forall m :: m in r.members ==> KeyIdOf(m) == r.keyId
  {
  }

  /**
   Among accepted proofs, exactly those that claim the true tree size name the leaf at their
   index, with the audit path that would have been built.
   */
  lemma AcceptedProofsNameTheirLeaf(r: MultisetRoot, items: seq<Member>, proof: InclusionProof)
    requires IsRootOf(r, items) && ValidMember(proof.member) && proof.root == Some(r.root) && Accepts(proof)
    ensures IsProofFor(proof, r, proof.member) <==> proof.treeSize == |r.members|
  {
    AcceptedIffProvesMember(r, items, proof);
    var m :| ProvesMember(proof, r, m);
    if proof.treeSize == |r.members| {
      TurnsDetermineIndex(proof.leafIndex, m, |r.members|);
    }
  }

  /** Among accepted proofs, those name the right index whose size splits like the true one on the way to it. */
  lemma AcceptedIndexIsTrueIff(r: MultisetRoot, items: seq<Member>, proof: InclusionProof)
    requires IsRootOf(r, items) && ValidMember(proof.member) && proof.root == Some(r.root) && Accepts(proof)
    requires 0 <= proof.leafIndex < proof.treeSize && proof.leafIndex < |r.members|
    ensures r.members[proof.leafIndex] == proof.member <==> SameSplits(proof.leafIndex, |r.members|, proof.treeSize)
  {
    hide Turns, SameSplits, Accepts, IsRootOf, ValidMember;
    AcceptedIffProvesMember(r, items, proof);
    var m :| ProvesMember(proof, r, m);
    var i: nat := proof.leafIndex;
    SameIndexClaims(i, |r.members|, proof.treeSize);
    TurnsDetermineIndex(m, i, |r.members|);
    if r.members[i] == proof.member {
      NormalFormListsOnce(r, items, i, m);
    }
  }

  /** Whatever size and index it claims, an accepted proof's member is in the multiset. */
  lemma AcceptedProofsNameMembers(r: MultisetRoot, items: seq<Member>, proof: InclusionProof)
    requires IsRootOf(r, items) && ValidMember(proof.member) && Accepts(proof)
    requires proof.root == Some(r.root)
    ensures proof.member in r.members
  {
    var path := Decoded(proof.auditPath);
    RootKeepsLeaf(proof.leafIndex, proof.treeSize, LeafHash(proof.member), path, |path|);
    LeafDataOfTree(r.members);
    assert proof.member in LeafData(LeafHash(proof.member));
  }

  /**
   The index is authenticated for leaves left of the split, and their size up to the split point:
   an accepted proof of such a leaf claims its true index, and any size with that split point
   will do.
   */
  lemma LeftLeavesKeepTheirIndex(r: MultisetRoot, items: seq<Member>, proof: InclusionProof, m: nat, index: int, size: int)
    requires IsRootOf(r, items) && IsProofFor(proof, r, proof.member) && proof.leafIndex == m
    requires |r.members| >= 2 && m < SplitPoint(|r.members|)
    ensures ValidMember(proof.member)
    ensures Accepts(proof.(leafIndex := index, treeSize := size)) <==>
            index == m && m < size && size >= 2 && SplitPoint(size) == SplitPoint(|r.members|)
  {
    MemberOfRootIsValid(r, items, proof);
    OneClaimAccepted(r, items, proof, m, index, size);
    if 0 <= index < size {
      LeftClaims(m, |r.members|, index, size);
    }
  }

  /**
   For leaves right of the split neither is authenticated: the same proof is accepted for every
   power of two that could have been the split point, so under infinitely many sizes.
   */
  lemma RightLeavesLoseTheirIndex(r: MultisetRoot, items: seq<Member>, proof: InclusionProof, m: nat, k: nat)
    requires IsRootOf(r, items) && IsProofFor(proof, r, proof.member) && proof.leafIndex == m
    requires |r.members| >= 2 && SplitPoint(|r.members|) <= m
    requires IsPowerOfTwo(k) && |r.members| - SplitPoint(|r.members|) <= k
    ensures ValidMember(proof.member)
    ensures var shift := k - SplitPoint(|r.members|);
            Accepts(proof.(leafIndex := m + shift, treeSize := |r.members| + shift))
  {
    hide IsRootOf, Accepts, ValidMember, IsPowerOfTwo, SplitPoint, Turns, Path, Mth;
    MemberOfRootIsValid(r, items, proof);
    var shift := k - SplitPoint(|r.members|);
    ShiftedClaim(m, |r.members|, k);
    OneClaimAccepted(r, items, proof, m, m + shift, |r.members| + shift);
  }

  lemma MemberOfRootIsValid(r: MultisetRoot, items: seq<Member>, proof: InclusionProof)
    requires IsRootOf(r, items) && IsProofFor(proof, r, proof.member)
    ensures ValidMember(proof.member) && proof.member in r.members
  {
    assert r.members[proof.leafIndex] in r.members;
  }

  /** With another index and size a built proof is accepted exactly when the turns stay the same. */
  lemma OneClaimAccepted(r: MultisetRoot, items: seq<Member>, proof: InclusionProof, m: nat, index: int, size: int)
    requires IsRootOf(r, items) && IsProofFor(proof, r, proof.member) && proof.leafIndex == m && ValidMember(proof.member)
    ensures Accepts(proof.(leafIndex := index, treeSize := size)) <==>
            0 <= index < size && Turns(index, size) == Turns(m, |r.members|)
  {
    var claim := proof.(leafIndex := index, treeSize := size);
    AcceptedIffProvesMember(r, items, claim);
    if 0 <= index < size && Turns(index, size) == Turns(m, |r.members|) {
      assert ProvesMember(claim, r, m);
    }
    if Accepts(claim) {
      var m' :| ProvesMember(claim, r, m');
      NormalFormListsOnce(r, items, m, m');
    }
  }

  lemma NormalFormListsOnce(r: MultisetRoot, items: seq<Member>, i: nat, j: nat)
    requires IsRootOf(r, items) && i < |r.members| && j < |r.members| && r.members[i] == r.members[j]
    ensures i == j
  {
  }
}
