/**
 * The threshold-signature bookkeeping around ECDSA: partial signatures, their
 * byte encodings, aggregation of partials into a threshold signature and the
 * quorum check on one. The ECDSA primitive, the roster of public keys, the
 * verifier registered with the module system and the quorum size are
 * parameters.
 */
module Ecdsa {
  import opened Hotstuff
  import opened Wrappers

  // ---------------------------------------------------------------------
  // Big-endian integer encoding (big.Int.Bytes)
  // ---------------------------------------------------------------------

  /** The minimal big-endian bytes of `n`: no leading zero byte, and no bytes at all for 0. */
  function BigEndian(n: nat): (b: seq<byte>)
    ensures b == [] <==> n == 0
    ensures b != [] ==> b[0] != 0
    decreases n
  {
    if n == 0 then [] else BigEndian(n / 256) + [(n % 256) as byte]
  }

  /** The number whose big-endian bytes are `b` (the inverse of BigEndian). */
  function FromBigEndian(b: seq<byte>): nat
  {
    if b == [] then 0 else FromBigEndian(b[..|b| - 1]) * 256 + b[|b| - 1] as nat
  }

  /** A byte string with no leading zero byte. */
  predicate Minimal(b: seq<byte>)
  {
    b == [] || b[0] != 0
  }

  lemma {:induction false} BigEndianRoundTrip(n: nat)
    ensures FromBigEndian(BigEndian(n)) == n
    decreases n
  {
    if n > 0 {
      var b := BigEndian(n);
      assert b[..|b| - 1] == BigEndian(n / 256);
      BigEndianRoundTrip(n / 256);
    }
  }

  lemma {:induction false} FromBigEndianRoundTrip(b: seq<byte>)
    requires Minimal(b)
    ensures BigEndian(FromBigEndian(b)) == b
    decreases |b|
  {
    if b != [] {
      var init, last := b[..|b| - 1], b[|b| - 1];
      var x := FromBigEndian(init);
      var n := x * 256 + last as nat;
      assert n / 256 == x && n % 256 == last as nat;
      if init == [] {
        assert last != 0;
        assert BigEndian(n) == [last];
      } else {
        assert init[0] == b[0];
        FromBigEndianRoundTrip(init);
        assert BigEndian(n) == BigEndian(x) + [last];
      }
      assert init + [last] == b;
    }
  }

  // ---------------------------------------------------------------------
  // Partial signatures
  // ---------------------------------------------------------------------

  /**
   * An ECDSA partial signature. The accessors Signer, R and S of the source
   * are the destructors `signer`, `r` and `s`; RestoreSignature is the
   * constructor.
   */
  datatype Signature = Signature(r: nat, s: nat, signer: ID)
  {
    /**
     * The bytes of `r` followed by the bytes of `s`, with no delimiter: only
     * the length of `r`'s encoding tells where `s` starts.
     */
    function ToBytes(): (b: seq<byte>)
      ensures |b| == |BigEndian(r)| + |BigEndian(s)|
      ensures b == [] <==> r == 0 && s == 0
    {
      BigEndian(r) + BigEndian(s)
    }
  }

  /**
   * A value of the library's generic signature type: either this package's
   * partial signature or a signature of some other scheme, of which only the
   * signer is visible here.
   */
  datatype AnySignature = EcdsaPartial(sig: Signature) | Foreign(foreignSigner: ID)
  {
    /** The replica that produced the signature. */
    function Signer(): (id: ID)
      ensures this.EcdsaPartial? ==> id == this.sig.signer
      ensures this.Foreign? ==> id == this.foreignSigner
    {
      match this
      case EcdsaPartial(sig) => sig.signer
      case Foreign(id) => id
    }
  }

  /** Splitting a partial signature's bytes at the length of `r`'s encoding recovers `r` and `s`. */
  lemma SignatureBytesSplit(sig: Signature)
    ensures var b, n := sig.ToBytes(), |BigEndian(sig.r)|;
      n <= |b| && FromBigEndian(b[..n]) == sig.r && FromBigEndian(b[n..]) == sig.s
  {
    var b, n := sig.ToBytes(), |BigEndian(sig.r)|;
    assert b[..n] == BigEndian(sig.r);
    assert b[n..] == BigEndian(sig.s);
    BigEndianRoundTrip(sig.r);
    BigEndianRoundTrip(sig.s);
  }

  /**
   * Without the split point the encoding is ambiguous: (257, 1) and (1, 257)
   * encode to the same three bytes.
   */
  lemma SignatureBytesAmbiguous(id: ID)
    ensures Signature(257, 1, id).ToBytes() == Signature(1, 257, id).ToBytes()
  {
  }

  /** The public key of a replica, as the roster hands it out. */
  type PublicKey = seq<byte>

  /** The ECDSA verification primitive: (public key, hash, r, s) is valid. */
  type EcdsaPrimitive = (PublicKey, Hash, nat, nat) -> bool

  /**
   * Signs with the replica's own key: `outcome` is what the ECDSA primitive
   * returned for the hash, a pair (r, s) or the error it failed with.
   */
  function Sign<E>(self: ID, outcome: Result<(nat, nat), E>): (r: Result<Signature, E>)
    ensures r.Success? <==> outcome.Success?
    ensures r.Success? ==> r.value.signer == self && (r.value.r, r.value.s) == outcome.value
    ensures r.Failure? ==> r.error == outcome.error
  {
    match outcome
    case Success((sr, ss)) => Success(Signature(sr, ss, self))
    case Failure(e) => Failure(e)
  }

  /**
   * Checks a signature against the public key the roster lists for its
   * signer; a foreign signature or an unknown signer is rejected.
   */
  function Verify(v: AnySignature, hash: Hash, roster: map<ID, PublicKey>, primitive: EcdsaPrimitive): (ok: bool)
    ensures ok ==> v.EcdsaPartial? && v.Signer() in roster
    ensures ok ==> primitive(roster[v.Signer()], hash, v.sig.r, v.sig.s)
    ensures v.EcdsaPartial? && v.Signer() in roster ==> (ok <==> primitive(roster[v.Signer()], hash, v.sig.r, v.sig.s))
  {
    match v
    case EcdsaPartial(sig) => sig.signer in roster && primitive(roster[sig.signer], hash, sig.r, sig.s)
    case Foreign(_) => false
  }

  // ---------------------------------------------------------------------
  // Threshold signatures
  // ---------------------------------------------------------------------

  /** A threshold signature: partial signatures keyed by signer. */
  type ThresholdSignature = map<ID, Signature>

  /** Every partial is filed under its own signer. */
  predicate WellFormed(ts: ThresholdSignature)
  {
    forall id | id in ts :: ts[id].signer == id
  }

  /**
   * Every partial's signer is a key and no two partials share a signer; the
   * map being finite, its signers are then exactly its keys. A well-formed map
   * is one, and so is a map whose partials are filed under each other's keys.
   */
  predicate SignersPermuteKeys(ts: ThresholdSignature)
  {
    && (forall k {:trigger SignerIsKey(ts, k)} | k in ts :: SignerIsKey(ts, k))
    && OneKeyPerSigner(ts)
  }

  /** No two partials in `ts` were signed by the same replica. */
  predicate OneKeyPerSigner(ts: ThresholdSignature)
  {
    forall k1, k2 | k1 in ts && k2 in ts && ts[k1].signer == ts[k2].signer :: k1 == k2
  }

  /** The partial filed under `k` was signed by a replica that is also a key. */
  predicate SignerIsKey(ts: ThresholdSignature, k: ID)
    requires k in ts
  {
    ts[k].signer in ts
  }

  /** A map that files every partial under its own signer has its signers as a permutation of its keys. */
  lemma WellFormedPermutesKeys(ts: ThresholdSignature)
    requires WellFormed(ts)
    ensures SignersPermuteKeys(ts)
  {
    forall k | k in ts
      ensures SignerIsKey(ts, k)
    {
      assert ts[k].signer == k;
    }
  }

  /** The participants of a threshold signature (its key set). */
  function Participants(ts: ThresholdSignature): (ids: set<ID>)
    ensures forall id :: id in ids <==> Contains(ts, id)
  {
    ts.Keys
  }

  /** Whether `id` is a participant; for a well-formed signature, whether `id` signed one of its partials. */
  function Contains(ts: ThresholdSignature, id: ID): (b: bool)
    ensures WellFormed(ts) ==> (b <==> exists k | k in ts :: ts[k].signer == id)
  {
    id in ts
  }

  /** The signers of `sigs`. */
  ghost function SignersOf(sigs: seq<Signature>): set<ID>
  {
    set i | 0 <= i < |sigs| :: sigs[i].signer
  }

  /** No later entry of `sigs` has the signer of entry `i`. */
  ghost predicate LastBySigner(sigs: seq<Signature>, i: int)
    requires 0 <= i < |sigs|
  {
    forall j | i < j < |sigs| :: sigs[j].signer != sigs[i].signer
  }

  /** `ts` holds exactly the signers of `sigs`, each with its last occurrence. */
  ghost predicate Restores(sigs: seq<Signature>, ts: ThresholdSignature)
  {
    && ts.Keys == SignersOf(sigs)
    && WellFormed(ts)
    && forall i | 0 <= i < |sigs| && LastBySigner(sigs, i) :: ts[sigs[i].signer] == sigs[i]
  }

  /** Rebuilds a threshold signature from a list of partials; a repeated signer keeps its last partial. */
  method RestoreThresholdSignature(sigs: seq<Signature>) returns (ts: ThresholdSignature)
    ensures Restores(sigs, ts)
  {
    ts := map[];
    for n := 0 to |sigs|
      invariant ts.Keys == SignersOf(sigs[..n])
      invariant WellFormed(ts)
      invariant forall i | 0 <= i < n && (forall j | i < j < n :: sigs[j].signer != sigs[i].signer) ::
        ts[sigs[i].signer] == sigs[i]
    {
      ts := ts[sigs[n].signer := sigs[n]];
      assert sigs[..n + 1] == sigs[..n] + [sigs[n]];
    }
    assert sigs[..|sigs|] == sigs;
  }

  /** No two entries of `sigs` share a signer. */
  ghost predicate DistinctSigners(sigs: seq<Signature>)
  {
    forall i, j | 0 <= i < j < |sigs| :: sigs[i].signer != sigs[j].signer
  }

  /** Restoring from distinct-signer partials does not depend on their order. */
  lemma RestoreOrderIndependent(a: seq<Signature>, b: seq<Signature>, ta: ThresholdSignature, tb: ThresholdSignature)
    requires DistinctSigners(a) && DistinctSigners(b)
    requires forall s :: s in a <==> s in b
    requires Restores(a, ta) && Restores(b, tb)
    ensures ta == tb
  {
    forall id | id in ta
      ensures id in tb && ta[id] == tb[id]
    {
      var i :| 0 <= i < |a| && a[i].signer == id;
      assert LastBySigner(a, i);
      assert a[i] in b;
      var j :| 0 <= j < |b| && b[j] == a[i];
      assert LastBySigner(b, j);
    }
    forall id | id in tb
      ensures id in ta
    {
      var j :| 0 <= j < |b| && b[j].signer == id;
      assert b[j] in a;
      var i :| 0 <= i < |a| && a[i] == b[j];
    }
  }

  // ---------------------------------------------------------------------
  // Deterministic encoding of a threshold signature
  // ---------------------------------------------------------------------

  predicate StrictlyAscending(ids: seq<ID>)
  {
    forall i, j | 0 <= i < j < |ids| :: ids[i] < ids[j]
  }

  /**
   * sort.Search(len(order), func(i) { x < order[i] }): the first position
   * whose entry exceeds `x`, found by binary search.
   */
  method SearchInsertPosition(order: seq<ID>, x: ID) returns (i: nat)
    requires forall j, k | 0 <= j < k < |order| :: order[j] <= order[k]
    ensures i <= |order|
    ensures forall j | 0 <= j < i :: order[j] <= x
    ensures forall j | i <= j < |order| :: x < order[j]
  {
    var lo, hi := 0, |order|;
    while lo < hi
      invariant 0 <= lo <= hi <= |order|
      invariant forall j | 0 <= j < lo :: order[j] <= x
      invariant forall j | hi <= j < |order| :: x < order[j]
    {
      var h := (lo + hi) / 2;
      if !(x < order[h]) {
        lo := h + 1;
      } else {
        hi := h;
      }
    }
    i := lo;
  }

  /**
   * The insertion loop of ThresholdSignature.ToBytes: visits the partials in
   * any order and shift-inserts each signer at its sort.Search position. The
   * list holds exactly the partials' signers, once each.
   */
  method SortedSigners(ts: ThresholdSignature) returns (order: seq<ID>)
    requires OneKeyPerSigner(ts)
    ensures StrictlyAscending(order)
    ensures |order| == |ts|
    ensures forall k | k in ts :: ts[k].signer in order
    ensures forall id | id in order :: exists k | k in ts :: ts[k].signer == id
  {
    order := [];
    var pending := ts.Keys;
    // The key each listed signer was found under.
    ghost var source: map<ID, ID> := map[];
    while pending != {}
      invariant pending <= ts.Keys
      invariant StrictlyAscending(order)
      invariant forall id | id in order ::
        id in source && source[id] in ts && source[id] !in pending && ts[source[id]].signer == id
      invariant forall k | k in ts && k !in pending :: ts[k].signer in order
      invariant |order| + |pending| == |ts|
      decreases |pending|
    {
      var k :| k in pending;
      var signer := ts[k].signer;
      var i := SearchInsertPosition(order, signer);
      // Two partials never share a signer, and every listed signer's key is no longer pending.
      forall id | id in order
        ensures id != signer
      {
        assert source[id] != k;
      }
      InsertKeepsAscending(order, i, signer);
      order := order[..i] + [signer] + order[i..];
      pending := pending - {k};
      source := source[signer := k];
    }
    forall id | id in order
      ensures exists k | k in ts :: ts[k].signer == id
    {
      assert ts[source[id]].signer == id;
    }
  }

  /** Inserting a new element at its search position keeps a list strictly ascending. */
  lemma InsertKeepsAscending(order: seq<ID>, i: nat, x: ID)
    requires StrictlyAscending(order) && x !in order && i <= |order|
    requires forall j | 0 <= j < i :: order[j] <= x
    requires forall j | i <= j < |order| :: x < order[j]
    ensures StrictlyAscending(order[..i] + [x] + order[i..])
    ensures forall y :: y in order[..i] + [x] + order[i..] <==> y in order || y == x
  {
    assert order == order[..i] + order[i..];
  }

  /** A strictly ascending list of as many elements of `s` as `s` has lists all of `s`. */
  lemma {:induction false} AscendingCoversSet(a: seq<ID>, s: set<ID>)
    requires StrictlyAscending(a)
    requires forall x | x in a :: x in s
    requires |a| == |s|
    ensures forall x | x in s :: x in a
    decreases |a|
  {
    if a != [] {
      AscendingTail(a);
      AscendingCoversSet(a[1..], s - {a[0]});
    }
  }

  /** The partials of `ts` listed in `order`, encoded one after another. */
  function Concat(ts: ThresholdSignature, order: seq<ID>): seq<byte>
    requires forall id | id in order :: id in ts
  {
    if order == [] then []
    else Concat(ts, order[..|order| - 1]) + ts[order[|order| - 1]].ToBytes()
  }

  /** The least element of a non-empty set of IDs. */
  ghost function MinOf(s: set<ID>): (m: ID)
    requires s != {}
    ensures m in s
    ensures forall y | y in s :: m <= y
    decreases s
  {
    var x :| x in s;
    var rest := s - {x};
    if rest == {} then
      assert s == {x};
      x
    else
      var m := MinOf(rest);
      assert forall y | y in s :: y == x || y in rest;
      if x < m then x else m
  }

  /** The elements of `s` in ascending order. */
  ghost function SortedIds(s: set<ID>): (r: seq<ID>)
    ensures StrictlyAscending(r)
    ensures forall x :: x in r <==> x in s
    decreases s
  {
    if s == {} then []
    else
      var m := MinOf(s);
      [m] + SortedIds(s - {m})
  }

  /**
   * The canonical encoding: the partials' bytes in ascending key order, which
   * for a well-formed map is ascending signer order.
   */
  ghost function EncodeAscending(ts: ThresholdSignature): seq<byte>
  {
    Concat(ts, SortedIds(ts.Keys))
  }

  /** Dropping the head of an ascending sequence removes exactly its least element. */
  lemma AscendingTail(a: seq<ID>)
    requires StrictlyAscending(a) && a != []
    ensures forall x :: x in a[1..] <==> x in a && x != a[0]
  {
    forall x | x in a && x != a[0]
      ensures x in a[1..]
    {
      var p :| 0 <= p < |a| && a[p] == x;
      assert a[1..][p - 1] == x;
    }
  }

  /** A strictly ascending sequence is the ascending listing of its elements. */
  lemma {:induction false} AscendingIsSorted(a: seq<ID>, s: set<ID>)
    requires StrictlyAscending(a)
    requires forall x :: x in a <==> x in s
    ensures a == SortedIds(s)
    decreases |a|
  {
    if a == [] {
      assert s == {};
    } else {
      assert a[0] in s;
      var m := MinOf(s);
      assert m == a[0] by {
        var k :| 0 <= k < |a| && a[k] == m;
        assert a[0] <= a[k];
      }
      AscendingTail(a);
      AscendingIsSorted(a[1..], s - {m});
      assert a == [m] + a[1..];
    }
  }

  /**
   * Any ascending listing of the signers gives the canonical encoding, so the
   * encoding does not depend on the order in which the map was visited.
   */
  lemma EncodingOrderIndependent(ts: ThresholdSignature, order: seq<ID>)
    requires StrictlyAscending(order)
    requires forall id :: id in order <==> id in ts
    ensures Concat(ts, order) == EncodeAscending(ts)
  {
    AscendingIsSorted(order, ts.Keys);
  }

  /**
   * ThresholdSignature.ToBytes: the sorted signers are looked up as keys, so
   * when they are a permutation of the keys every partial is encoded once, in
   * ascending key order, whatever order the map is visited in.
   */
  method ThresholdToBytes(ts: ThresholdSignature) returns (b: seq<byte>)
    requires SignersPermuteKeys(ts)
    ensures b == EncodeAscending(ts)
  {
    var order := SortedSigners(ts);
    SignersListKeys(ts, order);
    b := EncodeInOrder(ts, order);
    EncodingOrderIndependent(ts, order);
  }

  /** When the signers permute the keys, a distinct listing of the signers lists exactly the keys. */
  lemma SignersListKeys(ts: ThresholdSignature, order: seq<ID>)
    requires SignersPermuteKeys(ts)
    requires StrictlyAscending(order) && |order| == |ts|
    requires forall id | id in order :: exists k | k in ts :: ts[k].signer == id
    ensures forall id :: id in order <==> id in ts
  {
    forall id | id in order
      ensures id in ts
    {
      var k :| k in ts && ts[k].signer == id;
      assert SignerIsKey(ts, k);
    }
    AscendingCoversSet(order, ts.Keys);
  }

  /** The second loop of ThresholdSignature.ToBytes: appends the partial under each listed key, in list order. */
  method EncodeInOrder(ts: ThresholdSignature, order: seq<ID>) returns (b: seq<byte>)
    requires forall id | id in order :: id in ts
    ensures b == Concat(ts, order)
  {
    b := [];
    for k := 0 to |order|
      invariant b == Concat(ts, order[..k])
    {
      assert order[..k + 1][..k] == order[..k];
      b := b + ts[order[k]].ToBytes();
    }
    assert order[..|order|] == order;
  }

  /**
   * Partials filed under each other's keys still encode once each: with the
   * partial by 2 under key 1 and the partial by 1 under key 2, the bytes are
   * key 1's partial followed by key 2's.
   */
  lemma SwappedPartialsEncodeByKey(p: Signature, q: Signature)
    requires p.signer == 2 && q.signer == 1
    ensures var ts := map[1 := p, 2 := q];
      SignersPermuteKeys(ts) && !WellFormed(ts) && EncodeAscending(ts) == p.ToBytes() + q.ToBytes()
  {
    var ts := map[1 := p, 2 := q];
    assert SignerIsKey(ts, 1) && SignerIsKey(ts, 2);
    assert ts.Keys == {1, 2};
    assert StrictlyAscending([1, 2]);
    AscendingIsSorted([1, 2], ts.Keys);
    assert Concat(ts, [1, 2][..1]) == p.ToBytes();
  }

  /** Partials with distinct signers restore to the same bytes whatever their order. */
  lemma RestoredEncodingOrderIndependent(a: seq<Signature>, b: seq<Signature>, ta: ThresholdSignature, tb: ThresholdSignature)
    requires DistinctSigners(a) && DistinctSigners(b)
    requires forall s :: s in a <==> s in b
    requires Restores(a, ta) && Restores(b, tb)
    ensures EncodeAscending(ta) == EncodeAscending(tb)
  {
    RestoreOrderIndependent(a, b, ta, tb);
  }

  // ---------------------------------------------------------------------
  // Aggregation
  // ---------------------------------------------------------------------

  datatype CryptoError = PartialDuplicate | WrongType | NotAQuorum

  /** The verifier registered with the module system (possibly a caching layer). */
  type Verifier = (AnySignature, Hash) -> bool

  /** A partial that the aggregation keeps when its signer is new: the concrete type, verified. */
  predicate Accepts(v: AnySignature, hash: Hash, verify: Verifier)
  {
    v.EcdsaPartial? && verify(v, hash)
  }

  /** The signers whose partials the aggregation of `ps` accepts. */
  function AcceptedSigners(ps: seq<AnySignature>, hash: Hash, verify: Verifier): set<ID>
  {
    if ps == [] then {}
    else
      var v := ps[|ps| - 1];
      AcceptedSigners(ps[..|ps| - 1], hash, verify) + (if Accepts(v, hash, verify) then {v.Signer()} else {})
  }

  lemma {:induction false} AcceptedSignersMembers(ps: seq<AnySignature>, hash: Hash, verify: Verifier)
    ensures forall id :: id in AcceptedSigners(ps, hash, verify) <==>
      exists i | 0 <= i < |ps| :: Accepts(ps[i], hash, verify) && ps[i].Signer() == id
    decreases |ps|
  {
    if ps != [] {
      var init := ps[..|ps| - 1];
      AcceptedSignersMembers(init, hash, verify);
      forall id
        ensures id in AcceptedSigners(ps, hash, verify) <==>
          exists i | 0 <= i < |ps| :: Accepts(ps[i], hash, verify) && ps[i].Signer() == id
      {
        if exists i | 0 <= i < |ps| :: Accepts(ps[i], hash, verify) && ps[i].Signer() == id {
          var i :| 0 <= i < |ps| && Accepts(ps[i], hash, verify) && ps[i].Signer() == id;
          if i < |ps| - 1 {
            assert init[i] == ps[i];
          }
        }
        if exists i | 0 <= i < |init| :: Accepts(init[i], hash, verify) && init[i].Signer() == id {
          var i :| 0 <= i < |init| && Accepts(init[i], hash, verify) && init[i].Signer() == id;
          assert ps[i] == init[i];
        }
      }
    }
  }

  /** At most one signer is accepted per input partial. */
  lemma {:induction false} AcceptedSignersBound(ps: seq<AnySignature>, hash: Hash, verify: Verifier)
    ensures |AcceptedSigners(ps, hash, verify)| <= |ps|
    decreases |ps|
  {
    if ps != [] {
      AcceptedSignersBound(ps[..|ps| - 1], hash, verify);
    }
  }

  /** The error, if any, recorded for partial `v` when the signers in `accepted` are already accepted. */
  function ErrorFor(accepted: set<ID>, v: AnySignature): seq<CryptoError>
  {
    if v.Signer() in accepted then [PartialDuplicate]
    else if !v.EcdsaPartial? then [WrongType]
    else []
  }

  /** The errors accumulated over `ps`, in input order. */
  function Errors(ps: seq<AnySignature>, hash: Hash, verify: Verifier): seq<CryptoError>
  {
    if ps == [] then []
    else
      var init := ps[..|ps| - 1];
      Errors(init, hash, verify) + ErrorFor(AcceptedSigners(init, hash, verify), ps[|ps| - 1])
  }

  /** Some partial before position `i` with the signer of partial `i` was accepted. */
  ghost predicate AcceptedBefore(ps: seq<AnySignature>, i: int, hash: Hash, verify: Verifier)
    requires 0 <= i < |ps|
  {
    exists j | 0 <= j < i :: Accepts(ps[j], hash, verify) && ps[j].Signer() == ps[i].Signer()
  }

  /**
   * The error recorded for partial `i`: a duplicate exactly when its signer was
   * already accepted (a signer whose earlier partials all failed verification
   * is not a duplicate); otherwise wrong-type exactly when it is not an ECDSA
   * partial; otherwise nothing, whether or not it verifies.
   */
  lemma ErrorClassification(ps: seq<AnySignature>, i: int, hash: Hash, verify: Verifier)
    requires 0 <= i < |ps|
    ensures var e := ErrorFor(AcceptedSigners(ps[..i], hash, verify), ps[i]);
      && (e == [PartialDuplicate] <==> AcceptedBefore(ps, i, hash, verify))
      && (e == [WrongType] <==> !AcceptedBefore(ps, i, hash, verify) && !ps[i].EcdsaPartial?)
      && (e == [] <==> !AcceptedBefore(ps, i, hash, verify) && ps[i].EcdsaPartial?)
  {
    var init := ps[..i];
    AcceptedSignersMembers(init, hash, verify);
    if AcceptedBefore(ps, i, hash, verify) {
      var j :| 0 <= j < i && Accepts(ps[j], hash, verify) && ps[j].Signer() == ps[i].Signer();
      assert init[j] == ps[j];
    }
    if ps[i].Signer() in AcceptedSigners(init, hash, verify) {
      var j :| 0 <= j < |init| && Accepts(init[j], hash, verify) && init[j].Signer() == ps[i].Signer();
      assert ps[j] == init[j];
    }
  }

  /** Partial `i` is accepted and no earlier partial of its signer was. */
  predicate FirstAcceptedAt(ps: seq<AnySignature>, i: int, hash: Hash, verify: Verifier)
    requires 0 <= i < |ps|
  {
    && Accepts(ps[i], hash, verify)
    && forall j | 0 <= j < i :: !(Accepts(ps[j], hash, verify) && ps[j].Signer() == ps[i].Signer())
  }

  /**
   * Every entry of `ts` is filed under its signer and is the first accepted
   * partial of that signer among the first `n` partials.
   */
  ghost predicate KeepsFirstAcceptedUpTo(ps: seq<AnySignature>, n: nat, hash: Hash, verify: Verifier, ts: ThresholdSignature)
    requires n <= |ps|
  {
    forall id | id in ts ::
      && ts[id].signer == id
      && exists i | 0 <= i < n :: FirstAcceptedAt(ps, i, hash, verify) && ps[i] == EcdsaPartial(ts[id])
  }

  /** Every entry of `ts` is filed under its signer and is the first accepted partial of that signer. */
  ghost predicate KeepsFirstAccepted(ps: seq<AnySignature>, hash: Hash, verify: Verifier, ts: ThresholdSignature)
  {
    KeepsFirstAcceptedUpTo(ps, |ps|, hash, verify, ts)
  }

  /** Adding partial `n` under its new signer keeps the first-accepted property. */
  lemma KeepFirstAcceptedStep(ps: seq<AnySignature>, n: nat, hash: Hash, verify: Verifier, ts: ThresholdSignature)
    requires n < |ps|
    requires KeepsFirstAcceptedUpTo(ps, n, hash, verify, ts)
    requires ts.Keys == AcceptedSigners(ps[..n], hash, verify)
    requires ps[n].Signer() !in ts && Accepts(ps[n], hash, verify)
    ensures KeepsFirstAcceptedUpTo(ps, n + 1, hash, verify, ts[ps[n].sig.signer := ps[n].sig])
  {
    AcceptedSignersMembers(ps[..n], hash, verify);
    forall j | 0 <= j < n
      ensures !(Accepts(ps[j], hash, verify) && ps[j].Signer() == ps[n].Signer())
    {
      assert ps[..n][j] == ps[j];
    }
    assert FirstAcceptedAt(ps, n, hash, verify);
  }

  /**
   * Folds the partials into a threshold signature. A partial whose signer is
   * already accepted is a duplicate; otherwise one that is not an ECDSA partial
   * has the wrong type; otherwise it is kept when the registered verifier
   * accepts it. Succeeds when at least `quorum` signers are accepted, else fails
   * with not-a-quorum followed by the accumulated errors.
   */
  method CreateThresholdSignature(partials: seq<AnySignature>, hash: Hash, quorum: nat, verify: Verifier)
    returns (r: Result<ThresholdSignature, seq<CryptoError>>)
    ensures r.Success? <==> |AcceptedSigners(partials, hash, verify)| >= quorum
    ensures r.Success? ==> r.value.Keys == AcceptedSigners(partials, hash, verify)
    ensures r.Success? ==> |r.value| <= |partials|
    ensures r.Success? ==> KeepsFirstAccepted(partials, hash, verify, r.value)
    ensures r.Failure? ==> r.error == [NotAQuorum] + Errors(partials, hash, verify)
  {
    var thrSig: ThresholdSignature := map[];
    var errs: seq<CryptoError> := [];
    for n := 0 to |partials|
      invariant thrSig.Keys == AcceptedSigners(partials[..n], hash, verify)
      invariant KeepsFirstAcceptedUpTo(partials, n, hash, verify, thrSig)
      invariant errs == Errors(partials[..n], hash, verify)
    {
      var s := partials[n];
      assert partials[..n + 1][..n] == partials[..n];
      if Contains(thrSig, s.Signer()) {
        errs := errs + [PartialDuplicate];
        continue;
      }
      if !s.EcdsaPartial? {
        errs := errs + [WrongType];
        continue;
      }
      if verify(s, hash) {
        KeepFirstAcceptedStep(partials, n, hash, verify, thrSig);
        thrSig := thrSig[s.sig.signer := s.sig];
      }
    }
    assert partials[..|partials|] == partials;
    AcceptedSignersBound(partials, hash, verify);
    if |thrSig| >= quorum {
      return Success(thrSig);
    }
    return Failure([NotAQuorum] + errs);
  }

  /** The second of two partials of an accepted signer is reported as a duplicate. */
  lemma RepeatedSignerIsDuplicate(ps: seq<AnySignature>, i: int, j: int, hash: Hash, verify: Verifier)
    requires 0 <= j < i < |ps|
    requires Accepts(ps[j], hash, verify) && ps[j].Signer() == ps[i].Signer()
    ensures ErrorFor(AcceptedSigners(ps[..i], hash, verify), ps[i]) == [PartialDuplicate]
  {
    ErrorClassification(ps, i, hash, verify);
  }

  /** ECDSA partials from distinct signers that all verify are all accepted. */
  lemma {:induction false} DistinctValidPartialsAllAccepted(ps: seq<AnySignature>, hash: Hash, verify: Verifier)
    requires forall i | 0 <= i < |ps| :: Accepts(ps[i], hash, verify)
    requires forall i, j | 0 <= i < j < |ps| :: ps[i].Signer() != ps[j].Signer()
    ensures |AcceptedSigners(ps, hash, verify)| == |ps|
    decreases |ps|
  {
    if ps != [] {
      var init := ps[..|ps| - 1];
      DistinctValidPartialsAllAccepted(init, hash, verify);
      AcceptedSignersMembers(init, hash, verify);
      var last := ps[|ps| - 1];
      forall i | 0 <= i < |init|
        ensures !(Accepts(init[i], hash, verify) && init[i].Signer() == last.Signer())
      {
        assert init[i] == ps[i];
      }
      assert last.Signer() !in AcceptedSigners(init, hash, verify);
    }
  }

  /** With the roster-backed Verify as the registered verifier, only signers in the roster are accepted. */
  lemma AcceptedSignersKnown(ps: seq<AnySignature>, hash: Hash, roster: map<ID, PublicKey>, primitive: EcdsaPrimitive)
    ensures AcceptedSigners(ps, hash, (v, h) => Verify(v, h, roster, primitive)) <= roster.Keys
  {
    var verify: Verifier := (v, h) => Verify(v, h, roster, primitive);
    AcceptedSignersMembers(ps, hash, verify);
  }

  // ---------------------------------------------------------------------
  // Verification of a threshold signature
  // ---------------------------------------------------------------------

  /** A value of the library's generic threshold-signature type. */
  datatype AnyThreshold = EcdsaThreshold(partials: ThresholdSignature) | ForeignThreshold

  /**
   * The keys whose partial the registered verifier accepts. Nothing ties a key
   * to its partial's signer, so this counts entries, not distinct signers.
   */
  function VerifiedKeys(ts: ThresholdSignature, hash: Hash, verify: Verifier): set<ID>
  {
    set id | id in ts && verify(EcdsaPartial(ts[id]), hash)
  }

  /**
   * Rejects a foreign value or one with fewer than `quorum` partials without
   * verifying anything; otherwise verifies every partial (in any order) and
   * accepts when at least `quorum` of them verify. `calls` counts the
   * verifications performed.
   */
  method VerifyThresholdSignature(t: AnyThreshold, hash: Hash, quorum: nat, verify: Verifier)
    returns (ok: bool, ghost calls: nat)
    ensures ok <==> t.EcdsaThreshold? && |t.partials| >= quorum
                    && |VerifiedKeys(t.partials, hash, verify)| >= quorum
    ensures !(t.EcdsaThreshold? && |t.partials| >= quorum) ==> calls == 0
    ensures t.EcdsaThreshold? && |t.partials| >= quorum ==> calls == |t.partials|
  {
    if !t.EcdsaThreshold? {
      return false, 0;
    }
    var sig := t.partials;
    if |sig| < quorum {
      return false, 0;
    }
    var numVerified := 0;
    var pending := sig.Keys;
    calls := 0;
    while pending != {}
      invariant pending <= sig.Keys
      invariant numVerified == |VerifiedKeys(sig, hash, verify) - pending|
      invariant calls + |pending| == |sig.Keys|
      decreases |pending|
    {
      var id :| id in pending;
      ghost var before := VerifiedKeys(sig, hash, verify) - pending;
      if verify(EcdsaPartial(sig[id]), hash) {
        numVerified := numVerified + 1;
        assert VerifiedKeys(sig, hash, verify) - (pending - {id}) == before + {id};
      } else {
        assert VerifiedKeys(sig, hash, verify) - (pending - {id}) == before;
      }
      pending := pending - {id};
      calls := calls + 1;
    }
    ok := numVerified >= quorum;
  }

  /**
   * For a map that files every partial under its own signer, the verified keys
   * are exactly the distinct signers whose partials verify.
   */
  lemma WellFormedVerifiedKeysAreSigners(ts: ThresholdSignature, hash: Hash, verify: Verifier)
    requires WellFormed(ts)
    ensures VerifiedKeys(ts, hash, verify) == set id | id in ts && verify(EcdsaPartial(ts[id]), hash) :: ts[id].signer
  {
  }

  /**
   * The quorum count does not check signers: one replica's partial filed under
   * three keys gives three verified keys, so with a quorum of 3 the size gate
   * passes and the map is accepted, although one replica signed.
   */
  lemma OnePartialUnderThreeKeys(p: Signature, hash: Hash, verify: Verifier)
    requires p.signer == 1 && verify(EcdsaPartial(p), hash)
    ensures var ts := map[1 := p, 2 := p, 3 := p];
      && |ts| >= 3 && |VerifiedKeys(ts, hash, verify)| >= 3
      && (set id | id in ts :: ts[id].signer) == {1}
  {
    var ts := map[1 := p, 2 := p, 3 := p];
    assert ts.Keys == {1, 2, 3};
    assert VerifiedKeys(ts, hash, verify) == {1, 2, 3};
  }

  /** Only partials of the signature can verify, so the size gate never changes the verdict. */
  lemma SizeGateRedundant(ts: ThresholdSignature, hash: Hash, quorum: nat, verify: Verifier)
    requires |VerifiedKeys(ts, hash, verify)| >= quorum
    ensures |ts| >= quorum
  {
    assert VerifiedKeys(ts, hash, verify) <= ts.Keys;
    SubsetCardinality(VerifiedKeys(ts, hash, verify), ts.Keys);
  }

  lemma {:induction false} SubsetCardinality(a: set<ID>, b: set<ID>)
    requires a <= b
    ensures |a| <= |b|
    decreases b
  {
    if a != {} {
      var x :| x in a;
      SubsetCardinality(a - {x}, b - {x});
    }
  }

  /**
   * A signature built by CreateThresholdSignature passes
   * VerifyThresholdSignature with the same verifier and quorum.
   */
  lemma CreatedSignatureVerifies(ps: seq<AnySignature>, hash: Hash, quorum: nat, verify: Verifier, ts: ThresholdSignature)
    requires KeepsFirstAccepted(ps, hash, verify, ts)
    requires |ts| >= quorum
    ensures |VerifiedKeys(ts, hash, verify)| >= quorum
  {
    forall id | id in ts
      ensures id in VerifiedKeys(ts, hash, verify)
    {
      var i :| 0 <= i < |ps| && FirstAcceptedAt(ps, i, hash, verify) && ps[i] == EcdsaPartial(ts[id]);
    }
    assert VerifiedKeys(ts, hash, verify) == ts.Keys;
  }
}
