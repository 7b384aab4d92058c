/**
 * Request signing: keys are sorted at every depth before a value is printed,
 * hashed and signed, so that key order cannot break a signature.
 */
module SortKeys {
  import opened Util
  import opened Text
  import opened Json

  // ------------------------------------------------------------ property order

  /** The default order of Array.prototype.sort on strings: by characters, prefixes first. */
  predicate Leq(a: string, b: string) {
    a == [] || (b != [] && (a[0] < b[0] || (a[0] == b[0] && Leq(a[1..], b[1..]))))
  }

  lemma {:induction false} LeqTotal(a: string, b: string)
    ensures Leq(a, b) || Leq(b, a)
  {
    if a != [] && b != [] && a[0] == b[0] {
      LeqTotal(a[1..], b[1..]);
    }
  }

  lemma {:induction false} LeqAntisymmetric(a: string, b: string)
    requires Leq(a, b) && Leq(b, a)
    ensures a == b
  {
    if a != [] {
      LeqAntisymmetric(a[1..], b[1..]);
      assert a == [a[0]] + a[1..] && b == [b[0]] + b[1..];
    }
  }

  lemma {:induction false} LeqTransitive(a: string, b: string, c: string)
    requires Leq(a, b) && Leq(b, c)
    ensures Leq(a, c)
  {
    if a != [] && a[0] == b[0] && b[0] == c[0] {
      LeqTransitive(a[1..], b[1..], c[1..]);
    }
  }

  /** An array index in the sense of ECMA-262: a canonical numeral below 2^32 - 1. */
  predicate IsIndex(k: string) {
    && k != [] && (forall i :: 0 <= i < |k| ==> IsDigit(k[i]))
    && Decimal(Value(k)) == k && Value(k) < 0xFFFF_FFFF
  }

  /** Whether own key `a` is enumerated before a key `b` that is created later. */
  predicate Precedes(a: string, b: string) {
    if IsIndex(b) then IsIndex(a) && Value(a) < Value(b) else true
  }

  /** Adds a new own property: indices stand first, in numeric order, other keys in creation order. */
  function Put(members: seq<Member>, m: Member): seq<Member> {
    if members == [] then [m]
    else if Precedes(members[0].key, m.key) then [members[0]] + Put(members[1..], m)
    else [m] + members
  }

  // ------------------------------------------------------------------- the code

  function Keys(members: seq<Member>): seq<string> {
    seq(|members|, i requires 0 <= i < |members| => members[i].key)
  }

  predicate HasKey(members: seq<Member>, k: string) {
    exists j :: 0 <= j < |members| && members[j].key == k
  }

  function IndexOf(members: seq<Member>, k: string): (i: nat)
    requires HasKey(members, k)
    ensures i < |members| && members[i].key == k
  {
    if members[0].key == k then 0
    else
      assert HasKey(members[1..], k) by {
        var j :| 0 <= j < |members| && members[j].key == k;
        assert members[1..][j - 1].key == k;
      }
      1 + IndexOf(members[1..], k)
  }

  function InsertKey(k: string, ks: seq<string>): seq<string> {
    if ks == [] || Leq(k, ks[0]) then [k] + ks else [ks[0]] + InsertKey(k, ks[1..])
  }

  function Sorted(ks: seq<string>): seq<string> {
    if ks == [] then [] else InsertKey(ks[0], Sorted(ks[1..]))
  }

  ghost predicate HasKeys(members: seq<Member>, ks: seq<string>) {
    forall k :: k in ks ==> HasKey(members, k)
  }

  lemma {:induction false} SortedKeepsKeys(ks: seq<string>)
    ensures forall k :: k in Sorted(ks) <==> k in ks
  {
    if ks != [] {
      SortedKeepsKeys(ks[1..]);
      InsertKeepsKeys(ks[0], Sorted(ks[1..]));
      assert ks == [ks[0]] + ks[1..];
    }
  }

  lemma {:induction false} InsertKeepsKeys(k: string, ks: seq<string>)
    ensures forall x :: x in InsertKey(k, ks) <==> x == k || x in ks
  {
    if ks != [] && !Leq(k, ks[0]) {
      InsertKeepsKeys(k, ks[1..]);
      assert ks == [ks[0]] + ks[1..];
    }
  }

  lemma SortedKeysAreKeys(members: seq<Member>)
    ensures HasKeys(members, Sorted(Keys(members)))
  {
    SortedKeepsKeys(Keys(members));
    forall k | k in Sorted(Keys(members)) ensures HasKey(members, k) {
      var j :| 0 <= j < |members| && Keys(members)[j] == k;
      assert members[j].key == k;
    }
  }

  function SortKeys(x: Json): Json
    decreases x, 1
  {
    match x
    case Arr(items) => Arr(seq(|items|, i requires 0 <= i < |items| => SortKeys(items[i])))
    case Obj(members) =>
      SortedKeysAreKeys(members);
      Obj(Build(members, Sorted(Keys(members))))
    case _ => x
  }

  /** The reduce: properties are created one by one in the order of `ks`. */
  function Build(members: seq<Member>, ks: seq<string>): seq<Member>
    requires HasKeys(members, ks)
    decreases members, |ks|
  {
    if ks == [] then []
    else
      var k := ks[|ks| - 1];
      Put(Build(members, ks[..|ks| - 1]), Member(k, SortKeys(members[IndexOf(members, k)].value)))
  }

  // ------------------------------------------------------- values up to key order

  /** A JSON value without key order: objects are maps. */
  datatype Plain =
    | PNull
    | PBool(b: bool)
    | PNum(text: string)
    | PStr(s: string)
    | PArr(items: seq<Plain>)
    | PObj(members: map<string, Plain>)

  function Meaning(x: Json): Plain {
    match x
    case Null => PNull
    case Bool(b) => PBool(b)
    case Num(t) => PNum(t)
    case Str(s) => PStr(s)
    case Arr(items) => PArr(seq(|items|, i requires 0 <= i < |items| => Meaning(items[i])))
    case Obj(members) =>
      PObj(map k | k in KeySet(members) :: Meaning(members[IndexOf(members, k)].value))
  }

  function KeySet(members: seq<Member>): (ks: set<string>)
    ensures forall k :: k in ks <==> HasKey(members, k)
  {
    set i | 0 <= i < |members| :: members[i].key
  }

  /** No object has a key twice. */
  ghost predicate DistinctKeys(members: seq<Member>) {
    forall i, j :: 0 <= i < j < |members| ==> members[i].key != members[j].key
  }

  ghost predicate IsValue(x: Json) {
    match x
    case Arr(items) => forall i :: 0 <= i < |items| ==> IsValue(items[i])
    case Obj(members) => DistinctKeys(members) && forall i :: 0 <= i < |members| ==> IsValue(members[i].value)
    case _ => true
  }

  /** An object means its members, whatever their order. */
  lemma MeaningOfMembers(members: seq<Member>, values: map<string, Plain>)
    requires DistinctKeys(members)
    requires forall m :: m in members ==> m.key in values && values[m.key] == Meaning(m.value)
    requires forall k :: k in values ==> exists m :: m in members && m.key == k
    ensures Meaning(Obj(members)) == PObj(values)
  {
    var meant := Meaning(Obj(members)).members;
    forall k | k in values ensures HasKey(members, k) {
      var m :| m in members && m.key == k;
      var i :| 0 <= i < |members| && members[i] == m;
    }
    forall k | HasKey(members, k) ensures k in values && meant[k] == values[k] {
      assert members[IndexOf(members, k)] in members;
    }
    assert meant == values;
  }

  lemma MembersOfMeaning(members: seq<Member>, i: nat)
    requires DistinctKeys(members) && i < |members|
    ensures members[i].key in Meaning(Obj(members)).members
    ensures Meaning(Obj(members)).members[members[i].key] == Meaning(members[i].value)
  {
    assert HasKey(members, members[i].key);
    assert IndexOf(members, members[i].key) == i;
  }

  // ---------------------------------------------------------------- sorted keys

  ghost predicate StrictlySorted(s: seq<string>) {
    forall i, j :: 0 <= i < j < |s| ==> Leq(s[i], s[j]) && s[i] != s[j]
  }

  lemma {:induction false} InsertSorts(k: string, ks: seq<string>)
    requires StrictlySorted(ks) && k !in ks
    ensures StrictlySorted(InsertKey(k, ks))
  {
    InsertKeepsKeys(k, ks);
    if ks == [] {
    } else if Leq(k, ks[0]) {
      forall j | 0 <= j < |ks| ensures Leq(k, ks[j]) {
        if j > 0 {
          LeqTransitive(k, ks[0], ks[j]);
        }
      }
    } else {
      LeqTotal(k, ks[0]);
      var rest := InsertKey(k, ks[1..]);
      InsertSorts(k, ks[1..]);
      InsertKeepsKeys(k, ks[1..]);
      forall x | x in rest ensures Leq(ks[0], x) && ks[0] != x {
        if x != k {
          var j :| 0 <= j < |ks[1..]| && ks[1..][j] == x;
          assert ks[j + 1] == x;
        }
      }
      forall i, j | 0 <= i < j < |rest| + 1
        ensures Leq(([ks[0]] + rest)[i], ([ks[0]] + rest)[j]) && ([ks[0]] + rest)[i] != ([ks[0]] + rest)[j]
      {
        if i == 0 {
          assert rest[j - 1] in rest;
        }
      }
    }
  }

  lemma {:induction false} SortedSorts(ks: seq<string>)
    requires NoDuplicates(ks)
    ensures StrictlySorted(Sorted(ks))
  {
    if ks != [] {
      SortedSorts(ks[1..]);
      SortedKeepsKeys(ks[1..]);
      InsertSorts(ks[0], Sorted(ks[1..]));
    }
  }

  /** There is one way to list a set of keys in sorted order. */
  lemma {:induction false} OneSortedListing(a: seq<string>, b: seq<string>)
    requires StrictlySorted(a) && StrictlySorted(b)
    requires forall k :: k in a <==> k in b
    ensures a == b
  {
    NoDuplicatesSize(a);
    NoDuplicatesSize(b);
    assert Elems(a) == Elems(b);
    if a != [] {
      assert a[0] in a && a[0] in b;
      assert b[0] in b && b[0] in a;
      LeqReflexive(a[0]);
      LeqAntisymmetric(a[0], b[0]);
      forall k ensures k in a[1..] <==> k in b[1..] {
        assert k in a <==> k == a[0] || k in a[1..];
        assert k in b <==> k == b[0] || k in b[1..];
      }
      OneSortedListing(a[1..], b[1..]);
      assert a == [a[0]] + a[1..] && b == [b[0]] + b[1..];
    }
  }

  lemma LeqReflexive(a: string)
    ensures Leq(a, a)
  {
    LeqTotal(a, a);
  }

  // ------------------------------------------------------------ what gets built

  lemma {:induction false} PutAdds(members: seq<Member>, m: Member)
    ensures forall x :: x in Put(members, m) <==> x == m || x in members
    ensures |Put(members, m)| == |members| + 1
  {
    if members != [] && Precedes(members[0].key, m.key) {
      PutAdds(members[1..], m);
      assert members == [members[0]] + members[1..];
    }
  }

  /** The order in which a sorted object's keys are enumerated. */
  predicate Before(a: string, b: string) {
    if IsIndex(a) && IsIndex(b) then Value(a) < Value(b)
    else IsIndex(a) || (!IsIndex(b) && Leq(a, b) && a != b)
  }

  ghost predicate InOrder(members: seq<Member>) {
    forall i, j :: 0 <= i < j < |members| ==> Before(members[i].key, members[j].key)
  }

  lemma BeforeTransitive(a: string, b: string, c: string)
    requires Before(a, b) && Before(b, c)
    ensures Before(a, c)
  {
    if !IsIndex(a) {
      LeqTransitive(a, b, c);
      if a == c {
        LeqAntisymmetric(a, b);
      }
    }
  }

  /** A new key that sorts after all present ones takes its place in enumeration order. */
  lemma {:induction false} PutKeepsOrder(members: seq<Member>, m: Member)
    requires InOrder(members)
    requires forall x :: x in members ==> Leq(x.key, m.key) && x.key != m.key
    ensures InOrder(Put(members, m))
  {
    if members != [] {
      assert members[0] in members;
      if Precedes(members[0].key, m.key) {
        var rest := Put(members[1..], m);
        assert InOrder(members[1..]);
        PutKeepsOrder(members[1..], m);
        PutAdds(members[1..], m);
        forall x | x in rest ensures Before(members[0].key, x.key) {
          if x != m {
            var j :| 0 <= j < |members[1..]| && members[1..][j] == x;
            assert members[j + 1] == x;
          }
        }
      } else {
        forall x | x in members ensures Before(m.key, x.key) {
          var j :| 0 <= j < |members| && members[j] == x;
          if j > 0 {
            BeforeTransitive(m.key, members[0].key, x.key);
          }
        }
      }
    }
  }

  /** The member that the reduce makes for key `k`. */
  function Made(members: seq<Member>, k: string): Member
    requires HasKey(members, k)
  {
    Member(k, SortKeys(members[IndexOf(members, k)].value))
  }

  /** The reduce creates exactly one property per key, and they end up in order. */
  lemma {:induction false} BuildMakesEach(members: seq<Member>, ks: seq<string>)
    requires HasKeys(members, ks) && StrictlySorted(ks)
    ensures forall x :: x in Build(members, ks) <==> x.key in ks && x == Made(members, x.key)
    ensures InOrder(Build(members, ks))
  {
    if ks != [] {
      var last := |ks| - 1;
      var front := ks[..last];
      assert ks == front + [ks[last]];
      BuildMakesEach(members, front);
      PutAdds(Build(members, front), Made(members, ks[last]));
      forall x | x in Build(members, front) ensures Leq(x.key, ks[last]) && x.key != ks[last] {
        var j :| 0 <= j < |front| && front[j] == x.key;
        assert ks[j] == x.key;
      }
      PutKeepsOrder(Build(members, front), Made(members, ks[last]));
    }
  }

  // --------------------------------------------------------------- the theorems

  /** Sorting changes no value: only the order of keys, and it puts them in order. */
  lemma {:induction false} SortKeysKeepsTheValue(x: Json)
    requires IsValue(x)
    ensures IsValue(SortKeys(x)) && Meaning(SortKeys(x)) == Meaning(x)
    ensures x.Obj? ==> InOrder(SortKeys(x).members)
  {
    match x
    case Arr(items) =>
      forall i | 0 <= i < |items|
        ensures IsValue(SortKeys(items[i])) && Meaning(SortKeys(items[i])) == Meaning(items[i])
      {
        SortKeysKeepsTheValue(items[i]);
      }
      assert Meaning(SortKeys(x)).items == Meaning(x).items;
    case Obj(members) =>
      var ks := Sorted(Keys(members));
      SortedKeysAreKeys(members);
      SortedSorts(Keys(members));
      SortedKeepsKeys(Keys(members));
      BuildMakesEach(members, ks);
      var built := Build(members, ks);
      forall i | 0 <= i < |members|
        ensures members[i].key in Keys(members)
        ensures IsValue(SortKeys(members[i].value)) && Meaning(SortKeys(members[i].value)) == Meaning(members[i].value)
      {
        assert Keys(members)[i] == members[i].key;
        SortKeysKeepsTheValue(members[i].value);
      }
      forall m | m in built
        ensures IsValue(m.value) && m.key in Meaning(x).members && Meaning(x).members[m.key] == Meaning(m.value)
      {
        assert m == Made(members, m.key);
        MembersOfMeaning(members, IndexOf(members, m.key));
      }
      forall i | 0 <= i < |built| ensures IsValue(built[i].value) {
        assert built[i] in built;
      }
      forall k | k in Meaning(x).members ensures exists m :: m in built && m.key == k {
        assert Keys(members)[IndexOf(members, k)] == k;
        assert k in ks;
        assert Made(members, k) in built;
      }
      MeaningOfMembers(built, Meaning(x).members);
    case _ =>
  }

  lemma {:induction false} BuildSame(a: seq<Member>, b: seq<Member>, ks: seq<string>)
    requires HasKeys(a, ks) && HasKeys(b, ks)
    requires forall k :: k in ks ==> Made(a, k) == Made(b, k)
    ensures Build(a, ks) == Build(b, ks)
  {
    if ks != [] {
      var last := |ks| - 1;
      assert ks == ks[..last] + [ks[last]];
      assert ks[last] in ks;
      BuildSame(a, b, ks[..last]);
      assert Made(a, ks[last]) == Made(b, ks[last]);
    }
  }

  /** Values that differ only in key order, at any depth, are sorted to the same value. */
  lemma {:induction false} SameMeaningSortsAlike(x: Json, y: Json)
    requires IsValue(x) && IsValue(y) && Meaning(x) == Meaning(y)
    ensures SortKeys(x) == SortKeys(y)
  {
    match x
    case Arr(items) =>
      assert |items| == |Meaning(x).items| == |y.items|;
      forall i | 0 <= i < |items| ensures SortKeys(items[i]) == SortKeys(y.items[i]) {
        assert Meaning(items[i]) == Meaning(x).items[i] == Meaning(y.items[i]);
        SameMeaningSortsAlike(items[i], y.items[i]);
      }
    case Obj(members) =>
      SameKeys(members, y.members);
      var ks := Sorted(Keys(members));
      SortedKeysAreKeys(members);
      SortedKeysAreKeys(y.members);
      forall k | k in ks ensures Made(members, k) == Made(y.members, k) {
        var i, j := IndexOf(members, k), IndexOf(y.members, k);
        MembersOfMeaning(members, i);
        MembersOfMeaning(y.members, j);
        SameMeaningSortsAlike(members[i].value, y.members[j].value);
      }
      BuildSame(members, y.members, ks);
    case _ =>
  }

  lemma SameKeys(a: seq<Member>, b: seq<Member>)
    requires DistinctKeys(a) && DistinctKeys(b) && Meaning(Obj(a)) == Meaning(Obj(b))
    ensures Sorted(Keys(a)) == Sorted(Keys(b))
  {
    SortedSorts(Keys(a));
    SortedSorts(Keys(b));
    SortedKeepsKeys(Keys(a));
    SortedKeepsKeys(Keys(b));
    KeysOfMeaning(a);
    KeysOfMeaning(b);
    OneSortedListing(Sorted(Keys(a)), Sorted(Keys(b)));
  }

  lemma KeysOfMeaning(members: seq<Member>)
    requires DistinctKeys(members)
    ensures forall k :: k in Keys(members) <==> k in Meaning(Obj(members)).members
  {
    forall k ensures k in Keys(members) <==> k in Meaning(Obj(members)).members {
      if k in Keys(members) {
        var i :| 0 <= i < |members| && Keys(members)[i] == k;
        MembersOfMeaning(members, i);
      }
      if k in Meaning(Obj(members)).members {
        assert Keys(members)[IndexOf(members, k)] == k;
      }
    }
  }

  /** A canonical form: sorted results agree exactly for values that differ only in key order. */
  lemma SortKeysIsCanonical(x: Json, y: Json)
    requires IsValue(x) && IsValue(y)
    ensures SortKeys(x) == SortKeys(y) <==> Meaning(x) == Meaning(y)
  {
    SortKeysKeepsTheValue(x);
    SortKeysKeepsTheValue(y);
    if Meaning(x) == Meaning(y) {
      SameMeaningSortsAlike(x, y);
    }
  }

  lemma SortKeysIsIdempotent(x: Json)
    requires IsValue(x)
    ensures SortKeys(SortKeys(x)) == SortKeys(x)
  {
    SortKeysKeepsTheValue(x);
    SameMeaningSortsAlike(x, SortKeys(x));
  }

  lemma {:induction false} SortKeysStaysPrintable(x: Json)
    requires IsValue(x) && Printable(x)
    ensures Printable(SortKeys(x))
  {
    match x
    case Arr(items) =>
      forall i | 0 <= i < |items| ensures Printable(SortKeys(items[i])) {
        SortKeysStaysPrintable(items[i]);
      }
    case Obj(members) =>
      SortedKeysAreKeys(members);
      SortedSorts(Keys(members));
      BuildMakesEach(members, Sorted(Keys(members)));
      var built := Build(members, Sorted(Keys(members)));
      forall i | 0 <= i < |built| ensures Printable(built[i].value) {
        assert built[i] in built;
        var j := IndexOf(members, built[i].key);
        SortKeysStaysPrintable(members[j].value);
      }
    case _ =>
  }

  /** The text that is signed. */
  function SignedText(x: Json): string {
    Stringify(SortKeys(x))
  }

  /** Two values are signed as the same text exactly when they differ only in key order. */
  lemma SameSignedTextIffSameMeaning(x: Json, y: Json)
    requires IsValue(x) && IsValue(y) && Printable(x) && Printable(y)
    ensures SignedText(x) == SignedText(y) <==> Meaning(x) == Meaning(y)
  {
    SortKeysStaysPrintable(x);
    SortKeysStaysPrintable(y);
    SameTextSameValue(SortKeys(x), SortKeys(y));
    SortKeysIsCanonical(x, y);
  }

  // -------------------------------------------------------------------- signing

  type Hash = string
  type Signature = string

  /** The signature scheme: only what is needed of it is assumed where it is used. */
  datatype Scheme = Scheme(
    keccak: string -> Hash, sign: (Hash, string) -> Signature, recover: (Hash, Signature) -> string,
    wallet: string -> string) {

    ghost predicate Sound() {
      forall h, k :: recover(h, sign(h, k)) == wallet(k)
    }
  }

  function GenerateSignature(c: Scheme, data: Json, privateKey: string): Signature {
    c.sign(c.keccak(SignedText(data)), privateKey)
  }

  function RecoverWallet(c: Scheme, data: Json, signature: Signature): string {
    c.recover(c.keccak(SignedText(data)), signature)
  }

  /** Recovering from the signed data, its keys in any order, gives the signer's wallet. */
  lemma RecoverFindsTheSigner(c: Scheme, signed: Json, received: Json, privateKey: string)
    requires c.Sound() && IsValue(signed) && IsValue(received) && Meaning(received) == Meaning(signed)
    ensures RecoverWallet(c, received, GenerateSignature(c, signed, privateKey)) == c.wallet(privateKey)
  {
    SortKeysIsCanonical(signed, received);
  }

  const MAX_SIGNATURE_AGE_MS := 300000

  predicate SignatureHasExpired(now: int, timestamp: int) {
    now - timestamp >= MAX_SIGNATURE_AGE_MS
  }

  /** The module's cached listen signature; `iso` prints a timestamp. */
  class ListenSigner {
    const c: Scheme
    const iso: int -> string
    var cached: Option<(int, Signature)>
    ghost var cachedKey: string  // the key the cached signature was made with

    constructor (c: Scheme, iso: int -> string)
      ensures this.c == c && this.iso == iso && cached == None && Valid()
    {
      this.c, this.iso, cached, cachedKey := c, iso, None, "";
    }

    function Listen(timestamp: int): Json {
      Obj([Member("data", Str("listen")), Member("timestamp", Str(iso(timestamp)))])
    }

    ghost predicate Valid()
      reads this
    {
      cached.Some? ==> cached.value.1 == GenerateSignature(c, Listen(cached.value.0), cachedKey)
    }

    /**
     * The result is never expired. The cache ignores the key: with a sound scheme
     * the result is certain to recover to the caller's wallet exactly when it was
     * freshly made or cached for a key of the same wallet.
     */
    method Generate(now: int, privateKey: string) returns (timestamp: int, signature: Signature)
      requires Valid()
      modifies this
      ensures Valid() && cached == Some((timestamp, signature))
      ensures !SignatureHasExpired(now, timestamp)
      ensures old(cached).Some? && !SignatureHasExpired(now, old(cached).value.0)
              ==> cached == old(cached) && cachedKey == old(cachedKey)
      ensures old(cached).None? || SignatureHasExpired(now, old(cached).value.0)
              ==> timestamp == now && cachedKey == privateKey
      ensures c.Sound() ==>
                (RecoverWallet(c, Listen(timestamp), signature) == c.wallet(privateKey)
                 <==> c.wallet(cachedKey) == c.wallet(privateKey))
    {
      if cached.Some? {
        if SignatureHasExpired(now, cached.value.0) {
          cached := None;
        } else {
          return cached.value.0, cached.value.1;
        }
      }
      timestamp := now;
      signature := GenerateSignature(c, Listen(now), privateKey);
      cached, cachedKey := Some((timestamp, signature)), privateKey;
    }
  }
}
