/**
 * The content-addressed store: saving a buffer under its hash, and fetching a
 * CID from other nodes, gateway by gateway with retries, where any gateway may
 * answer anything.
 */
module ContentFetch {
  import opened Util

  type Cid = string
  type Bytes = seq<bv8>
  type Gateway = string

  /** Where a file goes: under its own CID, or inside a directory's. The CID names the path. */
  datatype Location = InFiles(cid: Cid) | InDirectory(dir: Cid, cid: Cid)

  /** How a gateway answers one request. */
  datatype Response =
    | HttpError(status: int)
    | NoData
    | Body(bytes: Bytes)
    | WriteFails(partial: Option<Bytes>)  // the stream broke; what was written, if the file was opened

  datatype AttemptResult = Fetched | Retry | Bail

  /** One attempt: retry `n` at gateway number `g` of the list, the node's request number `request`. */
  datatype Attempt = Attempt(g: nat, n: nat, request: nat)

  /** What the outside world does, whatever that is; each request may be answered differently. */
  datatype World = World(
    hash: Bytes -> Cid,
    respond: (Gateway, nat) -> Response,
    unlinkOk: nat -> bool) {

    /** The verification of a file's contents; only one CID may be empty. */
    predicate Verified(cid: Cid, bytes: Bytes, emptyFileCid: Cid) {
      if bytes == [] && cid != emptyFileCid then false else hash(bytes) == cid
    }
  }

  const EMPTY_FILE_CID := "QmbFMke1KXqnYyBBWxB74N4c5SBnJMVAiMNRcGu6x1AwQH"

  predicate BailsOut(r: Response) {
    r.HttpError? && (r.status == 403 || r.status == 401 || r.status == 400)
  }

  predicate Matches(w: World, cid: Cid, bytes: Bytes) {
    w.Verified(cid, bytes, EMPTY_FILE_CID)
  }

  /** Every file's bytes hash to the CID its path names. */
  ghost predicate ContentAddressed(w: World, disk: map<Location, Bytes>) {
    forall l :: l in disk ==> Matches(w, l.cid, disk[l])
  }

  // ------------------------------------------------- what attempts leave behind

  /** What is at the location after one attempt. */
  function Residue(w: World, cid: Cid, gateways: seq<Gateway>, a: Attempt, before: Option<Bytes>): Option<Bytes>
    requires a.g < |gateways|
  {
    match w.respond(gateways[a.g], a.request)
    case HttpError(_) => before
    case NoData => before
    case WriteFails(partial) => if partial.Some? then partial else before
    case Body(bytes) =>
      if Matches(w, cid, bytes) || !w.unlinkOk(a.request) then Some(bytes) else None
  }

  ghost predicate Indexed(gateways: seq<Gateway>, tried: seq<Attempt>) {
    forall i :: 0 <= i < |tried| ==> tried[i].g < |gateways|
  }

  ghost function ResidueOfAll(w: World, cid: Cid, gateways: seq<Gateway>, tried: seq<Attempt>,
          before: Option<Bytes>): Option<Bytes>
    requires Indexed(gateways, tried)
  {
    if tried == [] then before
    else
      var last := |tried| - 1;
      Residue(w, cid, gateways, tried[last], ResidueOfAll(w, cid, gateways, tried[..last], before))
  }

  /** The attempt leaves the location as it found it. */
  predicate Untouched(w: World, gateways: seq<Gateway>, a: Attempt)
    requires a.g < |gateways|
  {
    var r := w.respond(gateways[a.g], a.request);
    r.HttpError? || r.NoData? || r == WriteFails(None)
  }

  /** The attempt leaves wrong bytes: a broken write, or a mismatch that cannot be unlinked. */
  predicate LeavesGarbage(w: World, cid: Cid, gateways: seq<Gateway>, a: Attempt)
    requires a.g < |gateways|
  {
    var r := w.respond(gateways[a.g], a.request);
    || (r.WriteFails? && r.partial.Some? && !Matches(w, cid, r.partial.value))
    || (r.Body? && !Matches(w, cid, r.bytes) && !w.unlinkOk(a.request))
  }

  /** Attempt `i` leaves wrong bytes and no later one touches the file. */
  ghost predicate LeftBy(w: World, cid: Cid, gateways: seq<Gateway>, tried: seq<Attempt>, i: int)
    requires Indexed(gateways, tried)
  {
    && 0 <= i < |tried|
    && LeavesGarbage(w, cid, gateways, tried[i])
    && forall j :: i < j < |tried| ==> Untouched(w, gateways, tried[j])
  }

  lemma UntouchedKeepsLeftBy(w: World, cid: Cid, gateways: seq<Gateway>, tried: seq<Attempt>, i: int)
    requires Indexed(gateways, tried) && tried != [] && Untouched(w, gateways, tried[|tried| - 1])
    ensures LeftBy(w, cid, gateways, tried, i) <==> LeftBy(w, cid, gateways, tried[..|tried| - 1], i)
  {
    var before := tried[..|tried| - 1];
    assert forall j :: 0 <= j < |before| ==> before[j] == tried[j];
  }

  /**
   * Wrong bytes stay behind if and only if some attempt leaves them and no later
   * attempt touches the file.
   */
  lemma {:induction false} GarbageStaysIff(w: World, cid: Cid, gateways: seq<Gateway>, tried: seq<Attempt>)
    requires Indexed(gateways, tried)
    ensures var r := ResidueOfAll(w, cid, gateways, tried, None);
      r.Some? && !Matches(w, cid, r.value) <==> exists i :: LeftBy(w, cid, gateways, tried, i)
  {
    if tried != [] {
      var last := |tried| - 1;
      var before := tried[..last];
      GarbageStaysIff(w, cid, gateways, before);
      if Untouched(w, gateways, tried[last]) {
        forall i ensures LeftBy(w, cid, gateways, tried, i) <==> LeftBy(w, cid, gateways, before, i) {
          UntouchedKeepsLeftBy(w, cid, gateways, tried, i);
        }
      } else {
        assert forall i :: LeftBy(w, cid, gateways, tried, i) ==> i == last;
        assert LeavesGarbage(w, cid, gateways, tried[last]) <==> LeftBy(w, cid, gateways, tried, last);
      }
    }
  }

  /** With whole writes and working unlinks no wrong bytes can stay. */
  ghost predicate Clean(w: World) {
    && (forall g, n :: w.respond(g, n).WriteFails? ==> w.respond(g, n).partial.None?)
    && (forall n :: w.unlinkOk(n))
  }

  lemma {:induction false} CleanWorldLeavesNoGarbage(w: World, cid: Cid, gateways: seq<Gateway>, tried: seq<Attempt>)
    requires Indexed(gateways, tried) && Clean(w)
    ensures var r := ResidueOfAll(w, cid, gateways, tried, None); r.Some? ==> Matches(w, cid, r.value)
  {
    GarbageStaysIff(w, cid, gateways, tried);
  }

  // ----------------------------------------------------------- order and number

  /** The attempt after `a`: the next retry, or the next gateway from its first request; and the next request. */
  predicate Next(a: Attempt, b: Attempt) {
    && ((b.g == a.g && b.n == a.n + 1) || (b.g == a.g + 1 && b.n == 0))
    && b.request == a.request + 1
  }

  predicate IsFirst(a: Attempt) {
    a.g == 0 && a.n == 0
  }

  /** Gateways in list order, each tried anew from its first request, at most `retries` + 1 times. */
  ghost predicate InOrder(tried: seq<Attempt>, gateways: nat, retries: nat) {
    && (tried != [] ==> IsFirst(tried[0]))
    && (forall i :: 0 <= i < |tried| ==> tried[i].g < gateways && tried[i].n <= retries)
    && (forall i :: 0 < i < |tried| ==> Next(tried[i - 1], tried[i]))
  }

  lemma {:induction false} AttemptNumber(tried: seq<Attempt>, gateways: nat, retries: nat, i: nat)
    requires InOrder(tried, gateways, retries) && i < |tried|
    ensures i <= tried[i].g * (retries + 1) + tried[i].n
  {
    if i > 0 {
      AttemptNumber(tried, gateways, retries, i - 1);
      assert (tried[i - 1].g + 1) * (retries + 1) == tried[i - 1].g * (retries + 1) + retries + 1;
    }
  }

  /** At most `retries` + 1 requests per gateway in all. */
  lemma AttemptsAreBounded(tried: seq<Attempt>, gateways: nat, retries: nat)
    requires InOrder(tried, gateways, retries)
    ensures |tried| <= gateways * (retries + 1)
  {
    if tried != [] {
      var last := |tried| - 1;
      AttemptNumber(tried, gateways, retries, last);
      var g := tried[last].g;
      assert (g + 1) * (retries + 1) == g * (retries + 1) + retries + 1;
      MulMonotone(g + 1, gateways, retries + 1);
    }
  }

  lemma MulMonotone(a: nat, b: nat, c: nat)
    requires a <= b
    ensures a * c <= b * c
  {}

  /** The attempts are in order and lead from the bytes at the start to those now. */
  ghost predicate Account(w: World, cid: Cid, gateways: seq<Gateway>, tried: seq<Attempt>,
                          start: Option<Bytes>, retries: nat, now: Option<Bytes>) {
    && InOrder(tried, |gateways|, retries) && Indexed(gateways, tried)
    && now == ResidueOfAll(w, cid, gateways, tried, start)
  }

  lemma OneMoreAttempt(w: World, cid: Cid, gateways: seq<Gateway>, tried: seq<Attempt>,
                       start: Option<Bytes>, retries: nat, now: Option<Bytes>, a: Attempt)
    requires Account(w, cid, gateways, tried, start, retries, now)
    requires a.g < |gateways| && a.n <= retries
    requires if tried == [] then IsFirst(a) else Next(tried[|tried| - 1], a)
    ensures Account(w, cid, gateways, tried + [a], start, retries, Residue(w, cid, gateways, a, now))
  {
    var more := tried + [a];
    assert more[..|more| - 1] == tried;
  }

  /** The registered nodes that are neither targets nor this node, in the order they are listed. */
  function OtherNodes(allNodes: seq<Gateway>, targets: seq<Gateway>, self: Gateway): (r: seq<Gateway>)
    ensures forall c :: c in r <==> c in allNodes && c !in targets && c != self
  {
    if allNodes == [] then []
    else
      var last := allNodes[|allNodes| - 1];
      OtherNodes(allNodes[..|allNodes| - 1], targets, self) + if last !in targets && self != last then [last] else []
  }

  // ------------------------------------------------------------------ the object

  class ContentStore {
    const w: World
    var disk: map<Location, Bytes>
    var attemptedFixes: set<Location>  // the Redis set of today's network lookups
    var requests: nat                  // how many requests this node has sent

    constructor (w: World)
      ensures this.w == w && disk == map[] && attemptedFixes == {} && requests == 0
    {
      this.w, disk, attemptedFixes, requests := w, map[], {}, 0;
    }

    function At(l: Location): Option<Bytes>
      reads this
    {
      if l in disk then Some(disk[l]) else None
    }

    method FetchFromTargetGateway(l: Location, gateways: seq<Gateway>, a: Attempt) returns (r: AttemptResult)
      requires a.g < |gateways| && a.request == requests
      modifies this`disk, this`requests
      ensures requests == old(requests) + 1
      ensures At(l) == Residue(w, l.cid, gateways, a, old(At(l)))
      ensures forall k :: k != l ==> At(k) == old(At(k))
      ensures var reply := w.respond(gateways[a.g], a.request);
        r.Fetched? <==> reply.Body? && Matches(w, l.cid, reply.bytes)
      ensures r.Fetched? ==> l in disk && Matches(w, l.cid, disk[l])
      ensures r.Bail? <==> BailsOut(w.respond(gateways[a.g], a.request))
    {
      var response := w.respond(gateways[a.g], requests);
      requests := requests + 1;
      match response
      case HttpError(status) =>
        return if status == 403 || status == 401 || status == 400 then Bail else Retry;
      case NoData =>
        return Retry;
      case WriteFails(partial) =>
        if partial.Some? {
          disk := disk[l := partial.value];
        }
        return Retry;
      case Body(bytes) =>
        disk := disk[l := bytes];
        if !w.Verified(l.cid, disk[l], EMPTY_FILE_CID) {
          if w.unlinkOk(a.request) {
            disk := disk - {l};
          }
          return Retry;
        }
        r := Fetched;
    }

    /** All attempts so far, in order, with what they left at the location. */
    ghost predicate Tried(l: Location, gateways: seq<Gateway>, tried: seq<Attempt>, start: Option<Bytes>, retries: nat)
      reads this
    {
      && Account(w, l.cid, gateways, tried, start, retries, At(l))
      && (tried != [] ==> tried[|tried| - 1].request + 1 == requests)
    }

    /** Retries one gateway until it delivers, bails out or has used up its retries. */
    method FetchWithRetries(l: Location, gateways: seq<Gateway>, g: nat, retries: nat,
                            ghost tried: seq<Attempt>, ghost start: Option<Bytes>)
      returns (ok: bool, ghost tried': seq<Attempt>)
      requires g < |gateways| && Tried(l, gateways, tried, start, retries)
      requires if tried == [] then g == 0 else tried[|tried| - 1].g + 1 == g
      modifies this`disk, this`requests
      ensures Tried(l, gateways, tried', start, retries) && tried <= tried'
      ensures tried' != [] && tried'[|tried'| - 1].g == g
      ensures ok ==> l in disk && Matches(w, l.cid, disk[l])
      ensures !ok ==> var last := tried'[|tried'| - 1];
        last.n == retries || BailsOut(w.respond(gateways[g], last.request))
      ensures forall k :: k != l ==> At(k) == old(At(k))
    {
      tried' := tried;
      for n := 0 to retries + 1
        invariant Tried(l, gateways, tried', start, retries) && tried <= tried'
        invariant if n == 0 then tried' == tried
                  else tried' != [] && tried'[|tried'| - 1] == Attempt(g, n - 1, requests - 1)
        invariant forall k :: k != l ==> At(k) == old(At(k))
      {
        var a := Attempt(g, n, requests);
        OneMoreAttempt(w, l.cid, gateways, tried', start, retries, At(l), a);
        var r := FetchFromTargetGateway(l, gateways, a);
        tried' := tried' + [a];
        if r.Fetched? {
          return true, tried';
        }
        if r.Bail? {
          return false, tried';
        }
      }
      ok := false;
    }

    /**
     * Target gateways first, then, if allowed and not done today, the rest.
     * Success means verified bytes are in place; on failure the location holds
     * what the attempts left there, and every gateway that may be asked was.
     */
    method FetchFromNetworkAndWrite(l: Location, targets: seq<Gateway>, others: seq<Gateway>, retries: nat,
            findInNetwork: bool)
      returns (ok: bool, ghost tried: seq<Attempt>)
      modifies this`disk, this`attemptedFixes, this`requests
      ensures Tried(l, targets + others, tried, old(At(l)), retries)
      ensures |tried| <= |targets + others| * (retries + 1)
      ensures ok ==> l in disk && Matches(w, l.cid, disk[l])
      ensures !findInNetwork || l in old(attemptedFixes) ==> forall a :: a in tried ==> a.g < |targets|
      ensures !ok && findInNetwork && l !in old(attemptedFixes) && |targets + others| > 0 ==>
                tried != [] && tried[|tried| - 1].g == |targets + others| - 1
      ensures forall k :: k != l ==> At(k) == old(At(k))
      ensures old(attemptedFixes) <= attemptedFixes <= old(attemptedFixes) + {l}
    {
      ghost var start := At(l);
      var gateways := targets + others;
      tried := [];
      for g := 0 to |targets|
        invariant Tried(l, gateways, tried, start, retries)
        invariant if tried == [] then g == 0 else tried[|tried| - 1].g + 1 == g
        invariant forall k :: k != l ==> At(k) == old(At(k))
        invariant attemptedFixes == old(attemptedFixes)
      {
        ok, tried := FetchWithRetries(l, gateways, g, retries, tried, start);
        if ok {
          InOrderSoFar(tried, |gateways|, retries, |targets|);
          return;
        }
      }
      InOrderSoFar(tried, |gateways|, retries, |targets|);
      if !findInNetwork {
        return false, tried;
      }
      var firstTime := l !in attemptedFixes;
      attemptedFixes := attemptedFixes + {l};
      if !firstTime {
        return false, tried;
      }
      for g := |targets| to |gateways|
        invariant Tried(l, gateways, tried, start, retries)
        invariant if tried == [] then g == 0 else tried[|tried| - 1].g + 1 == g
        invariant forall k :: k != l ==> At(k) == old(At(k))
        invariant attemptedFixes == old(attemptedFixes) + {l}
      {
        ok, tried := FetchWithRetries(l, gateways, g, retries, tried, start);
        if ok {
          AttemptsAreBounded(tried, |gateways|, retries);
          return;
        }
      }
      AttemptsAreBounded(tried, |gateways|, retries);
      ok := false;
    }

    static lemma InOrderSoFar(tried: seq<Attempt>, gateways: nat, retries: nat, bound: nat)
      requires InOrder(tried, gateways, retries)
      requires tried != [] ==> tried[|tried| - 1].g < bound
      ensures |tried| <= gateways * (retries + 1)
      ensures forall a :: a in tried ==> a.g < bound
    {
      AttemptsAreBounded(tried, gateways, retries);
      LastIsLargest(tried, gateways, retries);
    }

    static lemma {:induction false} LastIsLargest(tried: seq<Attempt>, gateways: nat, retries: nat)
      requires InOrder(tried, gateways, retries)
      ensures forall a :: a in tried ==> a.g <= tried[|tried| - 1].g
    {
      if |tried| > 1 {
        var rest := tried[..|tried| - 1];
        LastIsLargest(rest, gateways, retries);
        assert tried == rest + [tried[|tried| - 1]];
      }
    }

    /**
     * The whole fetch. In a content-addressed store success means the bytes hash
     * to the CID; with whole writes and working unlinks the store stays
     * content-addressed, whatever the gateways answer.
     */
    method FetchFileAndSave(l: Location, targets: seq<Gateway>, allNodes: seq<Gateway>, self: Gateway,
                            retries: nat, findInNetwork: bool)
      returns (ok: bool, ghost tried: seq<Attempt>)
      modifies this`disk, this`attemptedFixes, this`requests
      ensures ok ==> l in disk
      ensures ContentAddressed(w, old(disk)) && ok ==> Matches(w, l.cid, disk[l])
      ensures ContentAddressed(w, old(disk)) && Clean(w) ==> ContentAddressed(w, disk)
      ensures l in old(disk) ==> ok && tried == [] && disk == old(disk)
      ensures l !in old(disk) ==>
                && Tried(l, targets + OtherNodes(allNodes, targets, self), tried, old(At(l)), retries)
                && |tried| <= |targets + OtherNodes(allNodes, targets, self)| * (retries + 1)
      ensures forall k :: k != l ==> At(k) == old(At(k))
    {
      var others := [];
      for i := 0 to |allNodes|
        modifies {}
        invariant others == OtherNodes(allNodes[..i], targets, self)
      {
        assert allNodes[..i + 1][..i] == allNodes[..i];
        if allNodes[i] !in targets && self != allNodes[i] {
          others := others + [allNodes[i]];
        }
      }
      assert allNodes[..|allNodes|] == allNodes;
      if l in disk {
        return true, [];
      }
      ghost var before := disk;
      ok, tried := FetchFromNetworkAndWrite(l, targets, others, retries, findInNetwork);
      if ContentAddressed(w, before) && Clean(w) {
        CleanWorldLeavesNoGarbage(w, l.cid, targets + others, tried);
        forall k | k in disk ensures Matches(w, k.cid, disk[k]) {
          if k != l {
            assert At(k) == old(At(k));
          }
        }
      }
    }

    /**
     * Saves a buffer under its hash. `landed(n)` is what attempt `n` counted from
     * the end really put on disk, None if the write itself failed, which is not
     * retried. Only verified contents are ever left in place by a finished save.
     */
    method SaveFromBuffer(authenticated: bool, buffer: Bytes, retries: nat, landed: nat -> Option<Bytes>)
      returns (ok: bool, attempts: nat)
      modifies this`disk
      ensures attempts <= retries + 1
      ensures !authenticated ==> !ok && attempts == 0 && disk == old(disk)
      ensures ok ==> InFiles(w.hash(buffer)) in disk && Matches(w, w.hash(buffer), disk[InFiles(w.hash(buffer))])
      ensures !ok && authenticated && (forall n :: landed(n).Some?) ==>
          InFiles(w.hash(buffer)) !in disk && attempts == retries + 1
      ensures authenticated ==>
        (ok <==> exists n: nat ::
           n <= retries && Saves(buffer, landed, n) && forall m: nat :: n < m <= retries ==> landed(m).Some?)
      ensures forall k :: k != InFiles(w.hash(buffer)) ==> At(k) == old(At(k))
      decreases retries
    {
      if !authenticated {
        return false, 0;
      }
      var l := InFiles(w.hash(buffer));
      if landed(retries).None? {
        return false, 1;
      }
      disk := disk[l := landed(retries).value];
      if w.Verified(l.cid, disk[l], EMPTY_FILE_CID) {
        assert Saves(buffer, landed, retries);
        return true, 1;
      }
      disk := disk - {l};
      if retries > 0 {
        ok, attempts := SaveFromBuffer(authenticated, buffer, retries - 1, landed);
        attempts := attempts + 1;
        return;
      }
      return false, 1;
    }

    /** Attempt `n` wrote bytes that verify. */
    ghost predicate Saves(buffer: Bytes, landed: nat -> Option<Bytes>, n: nat) {
      landed(n).Some? && Matches(w, w.hash(buffer), landed(n).value)
    }
  }
}
