/**
 * Shortening job data for the queue dashboard. `Truncate` follows the code's
 * branches; the lemmas say what it does to the value at every path.
 */
module TruncateBull {
  import opened Util
  import opened Text
  import opened Json

  const MAX_DEPTH := 7
  const MAX_STRING := 10000
  const MAX_SIZE := 100

  function StringNote(n: nat): Json {
    Str("[Truncated string of length " + Decimal(n) + "]")
  }

  function ArrayNote(n: nat): Json {
    Str("[Truncated array with " + Decimal(n) + " elements]")
  }

  function ObjectNote(n: nat): Json {
    Str("[Truncated object with " + Decimal(n) + " keys]")
  }

  function Truncate(x: Json, depth: nat): Json
    decreases x, 0
  {
    match x
    case Arr(items) =>
      if depth >= MAX_DEPTH || |items| > MAX_SIZE then ArrayNote(|items|)
      else Arr(seq(|items|, i requires 0 <= i < |items| => Truncate(items[i], depth + 1)))
    case Obj(members) =>
      if depth >= MAX_DEPTH then ObjectNote(|members|)
      else Obj(seq(|members|, i requires 0 <= i < |members| =>
        Member(members[i].key, TruncateMember(members[i].value, depth + 1))))
    case _ => x
  }

  /** The switch on the type of a member's value. */
  function TruncateMember(v: Json, depth: nat): Json
    decreases v, 1
  {
    match v
    case Str(s) => if |s| > MAX_STRING then StringNote(|s|) else v
    case Arr(items) => if |items| > MAX_SIZE then ArrayNote(|items|) else Truncate(v, depth)
    case Obj(members) =>
      if members == [] then v
      else if |members| > MAX_SIZE then ObjectNote(|members|)
      else Truncate(v, depth)
    case _ => v
  }

  /** A value that sits in an array or at the root, or one that is a member of an object. */
  function Cut(x: Json, depth: nat, isMember: bool): Json {
    if isMember then TruncateMember(x, depth) else Truncate(x, depth)
  }

  // ------------------------------------------------------------------- paths

  datatype Step = Item(i: nat) | Field(i: nat)

  /** The value one step below, if there is one. */
  function Below(x: Json, s: Step): Option<Json> {
    match s
    case Item(i) => if x.Arr? && i < |x.items| then Some(x.items[i]) else None
    case Field(i) => if x.Obj? && i < |x.members| then Some(x.members[i].value) else None
  }

  function At(x: Json, path: seq<Step>): Option<Json> {
    if path == [] then Some(x)
    else
      var y := Below(x, path[0]);
      if y.Some? then At(y.value, path[1..]) else None
  }

  /** Whether the path ends in a member, given whether its start is one. */
  predicate EndsInMember(path: seq<Step>, isMember: bool) {
    if path == [] then isMember else path[|path| - 1].Field?
  }

  // ------------------------------------------------------------------ limits

  /** What may stand at this depth; only members have limits on text and on the number of keys. */
  predicate Allowed(v: Json, depth: nat, isMember: bool) {
    match v
    case Str(s) => isMember ==> |s| <= MAX_STRING
    case Arr(items) => depth < MAX_DEPTH && |items| <= MAX_SIZE
    case Obj(members) =>
      if isMember then members == [] || (depth < MAX_DEPTH && |members| <= MAX_SIZE) else depth < MAX_DEPTH
    case _ => true
  }

  ghost predicate WithinLimits(x: Json, depth: nat, isMember: bool) {
    forall p :: At(x, p).Some? ==> Allowed(At(x, p).value, depth + |p|, EndsInMember(p, isMember))
  }

  /** The path leads to a value, and every value on the way there is allowed. */
  predicate Reaches(x: Json, depth: nat, isMember: bool, path: seq<Step>)
    decreases |path|
  {
    path == [] ||
    (var y := Below(x, path[0]);
     && Allowed(x, depth, isMember)
     && y.Some?
     && Reaches(y.value, depth + 1, path[0].Field?, path[1..]))
  }

  function Size(v: Json): nat {
    match v
    case Str(s) => |s|
    case Arr(items) => |items|
    case Obj(members) => |members|
    case _ => 0
  }

  function Note(v: Json): Json
    requires v.Str? || v.Arr? || v.Obj?
  {
    match v
    case Str(_) => StringNote(Size(v))
    case Arr(_) => ArrayNote(Size(v))
    case Obj(_) => ObjectNote(Size(v))
  }

  /** The same scalar, an array as long, or an object with the same keys in the same order. */
  predicate SameShape(v: Json, w: Json) {
    match v
    case Arr(items) => w.Arr? && |w.items| == |items|
    case Obj(members) =>
      w.Obj? && |w.members| == |members| && forall i :: 0 <= i < |members| ==> w.members[i].key == members[i].key
    case _ => w == v
  }

  // ------------------------------------------------------------------ lemmas

  lemma CutHere(x: Json, depth: nat, isMember: bool)
    ensures Allowed(x, depth, isMember) ==> SameShape(x, Cut(x, depth, isMember))
    ensures !Allowed(x, depth, isMember) ==> (x.Str? || x.Arr? || x.Obj?) && Cut(x, depth, isMember) == Note(x)
  {
    var _ := Truncate(x, depth);
  }

  lemma CutBelow(x: Json, depth: nat, isMember: bool, s: Step)
    ensures Allowed(x, depth, isMember) ==>
              var y := Below(x, s);
              Below(Cut(x, depth, isMember), s) == if y.Some? then Some(Cut(y.value, depth + 1, s.Field?)) else None
    ensures !Allowed(x, depth, isMember) ==> Below(Cut(x, depth, isMember), s).None?
  {
    var _ := Truncate(x, depth);
  }

  /**
   * Truncation as a whole, path by path: the outermost values that are not allowed
   * become notes of their own kind and size, everything below them is gone, and
   * everything else keeps its place, its scalars, its lengths and its keys.
   */
  lemma {:induction false} TruncatedAt(x: Json, depth: nat, isMember: bool, p: seq<Step>)
    ensures At(Cut(x, depth, isMember), p).Some? <==> Reaches(x, depth, isMember, p)
    ensures Reaches(x, depth, isMember, p) ==> At(x, p).Some?
    ensures Reaches(x, depth, isMember, p) ==>
              var v, w := At(x, p).value, At(Cut(x, depth, isMember), p).value;
              if Allowed(v, depth + |p|, EndsInMember(p, isMember)) then SameShape(v, w)
              else (v.Str? || v.Arr? || v.Obj?) && w == Note(v)
    decreases |p|
  {
    if p == [] {
      CutHere(x, depth, isMember);
    } else {
      CutBelow(x, depth, isMember, p[0]);
      var y := Below(x, p[0]);
      if y.Some? {
        TruncatedAt(y.value, depth + 1, p[0].Field?, p[1..]);
      }
    }
  }

  lemma SameShapeSameLimits(v: Json, w: Json, depth: nat, isMember: bool)
    requires SameShape(v, w) && Allowed(v, depth, isMember)
    ensures Allowed(w, depth, isMember)
  {}

  /** Numerals are far shorter than the numbers they stand for. */
  lemma {:induction false} DecimalIsShort(n: nat)
    ensures |Decimal(n)| <= 1 + n / 10
  {
    if n >= 10 {
      DecimalIsShort(n / 10);
    }
  }

  lemma NoteNeverRepeats(v: Json)
    requires v.Str? || v.Arr? || v.Obj?
    requires v.Str? ==> |v.s| > MAX_STRING
    ensures Note(v) != v
  {
    DecimalIsShort(Size(v));
  }

  /** Strings have fewer than 2^53 code units (section 6.1.4 of ECMA-262), arrays and objects no more entries. */
  const SAFE := 0x20_0000_0000_0000

  ghost predicate Representable(x: Json) {
    forall p :: At(x, p).Some? ==> Size(At(x, p).value) < SAFE
  }

  lemma NoteFits(v: Json)
    requires (v.Str? || v.Arr? || v.Obj?) && Size(v) < SAFE
    ensures Note(v).Str? && |Note(v).s| <= MAX_STRING
  {
    TenTo16();
    DecimalLength(Size(v), 16);
  }

  lemma TenTo16()
    ensures Pow10(16) > SAFE
  {
    assert Pow10(4) == 10000 by {
      assert Pow10(2) == 100;
    }
    assert Pow10(8) == 100000000 by {
      assert Pow10(6) == 1000000;
    }
    assert Pow10(12) == 1000000000000 by {
      assert Pow10(10) == 10000000000;
    }
    assert Pow10(14) == 100000000000000;
  }

  /** The result is within every limit, at every path. */
  lemma TruncatedIsWithinLimits(x: Json, depth: nat, isMember: bool)
    requires Representable(x)
    ensures WithinLimits(Cut(x, depth, isMember), depth, isMember)
  {
    var t := Cut(x, depth, isMember);
    forall p | At(t, p).Some? ensures Allowed(At(t, p).value, depth + |p|, EndsInMember(p, isMember)) {
      TruncatedAt(x, depth, isMember, p);
      var v := At(x, p).value;
      if Allowed(v, depth + |p|, EndsInMember(p, isMember)) {
        SameShapeSameLimits(v, At(t, p).value, depth + |p|, EndsInMember(p, isMember));
      } else {
        NoteFits(v);
      }
    }
  }

  lemma ChildWithinLimits(x: Json, depth: nat, isMember: bool, s: Step)
    requires WithinLimits(x, depth, isMember) && Below(x, s).Some?
    ensures WithinLimits(Below(x, s).value, depth + 1, s.Field?)
  {
    var y := Below(x, s).value;
    forall p | At(y, p).Some? ensures Allowed(At(y, p).value, depth + 1 + |p|, EndsInMember(p, s.Field?)) {
      var q := [s] + p;
      assert q[1..] == p;
      assert At(x, q) == At(y, p);
      assert EndsInMember(q, isMember) == EndsInMember(p, s.Field?);
    }
  }

  lemma {:induction false} WithinLimitsUnchanged(x: Json, depth: nat, isMember: bool)
    requires WithinLimits(x, depth, isMember)
    ensures Cut(x, depth, isMember) == x
    decreases x
  {
    var here: seq<Step> := [];
    assert At(x, here) == Some(x);
    match x
    case Arr(items) =>
      forall i: nat | i < |items| ensures Truncate(items[i], depth + 1) == items[i] {
        ChildWithinLimits(x, depth, isMember, Item(i));
        WithinLimitsUnchanged(items[i], depth + 1, false);
      }
      assert Truncate(x, depth).items == items;
    case Obj(members) =>
      forall i: nat | i < |members| ensures TruncateMember(members[i].value, depth + 1) == members[i].value {
        ChildWithinLimits(x, depth, isMember, Field(i));
        WithinLimitsUnchanged(members[i].value, depth + 1, true);
      }
      assert members != [] ==> Truncate(x, depth) == x by {
        if members != [] && depth < MAX_DEPTH {
          assert Truncate(x, depth).members == members;
        }
      }
    case _ =>
  }

  lemma UnchangedIsWithinLimits(x: Json, depth: nat, isMember: bool)
    requires Cut(x, depth, isMember) == x
    ensures WithinLimits(x, depth, isMember)
  {
    forall p | At(x, p).Some? ensures Allowed(At(x, p).value, depth + |p|, EndsInMember(p, isMember)) {
      TruncatedAt(x, depth, isMember, p);
      var v := At(x, p).value;
      if v.Str? ==> |v.s| > MAX_STRING {
        if v.Str? || v.Arr? || v.Obj? {
          NoteNeverRepeats(v);
        }
      }
    }
  }

  /** Truncation changes nothing exactly when the data is within all limits. */
  lemma UnchangedIffWithinLimits(x: Json)
    ensures Truncate(x, 0) == x <==> WithinLimits(x, 0, false)
  {
    assert Cut(x, 0, false) == Truncate(x, 0);
    if Truncate(x, 0) == x {
      UnchangedIsWithinLimits(x, 0, false);
    }
    if WithinLimits(x, 0, false) {
      WithinLimitsUnchanged(x, 0, false);
    }
  }

  lemma TruncateIsIdempotent(x: Json)
    requires Representable(x)
    ensures Truncate(Truncate(x, 0), 0) == Truncate(x, 0)
  {
    TruncatedIsWithinLimits(x, 0, false);
    UnchangedIffWithinLimits(Truncate(x, 0));
  }

  /** The limits spelled out for the result: depth and length of every container at every path. */
  lemma NothingLongOrDeepIsLeft(x: Json, p: seq<Step>)
    requires Representable(x) && At(Truncate(x, 0), p).Some?
    ensures var v := At(Truncate(x, 0), p).value;
      && (v.Arr? ==> |v.items| <= 100 && |p| < 7)
      && (v.Obj? && v.members != [] ==> |p| < 7)
      && (p != [] && p[|p| - 1].Field? && v.Obj? ==> |v.members| <= 100)
      && (p != [] && p[|p| - 1].Field? && v.Str? ==> |v.s| <= 10000)
  {
    TruncatedIsWithinLimits(x, 0, false);
    assert Cut(x, 0, false) == Truncate(x, 0);
  }

  /** Text and keys are not limited at the root and in arrays, against the code's own description. */
  lemma ItemsAreNotShortened(s: string, members: seq<Member>)
    requires forall m :: m in members ==> m.value == Null
    ensures Truncate(Arr([Str(s), Obj(members)]), 0) == Arr([Str(s), Obj(members)])
  {
    var kept := Truncate(Obj(members), 1);
    forall i | 0 <= i < |members| ensures TruncateMember(members[i].value, 2) == members[i].value {
      assert members[i] in members;
    }
    assert kept.members == members;
    assert Truncate(Arr([Str(s), Obj(members)]), 0).items == [Str(s), kept];
  }
}
