/** The DKG library: a member's contribution (a secret polynomial shared
    among the group and committed to by a verification vector), the Feldman
    check of a received share, and the two aggregations that produce a
    member's group secret-key share and the group's verification vector.

    Keys are values here; in the library they are handles to objects inside
    bls-lib, some of which are updated in place (see the README). */
module Dkg {
  import opened Curve

  datatype Option<T> = None | Some(value: T)

  /** What `generateContribution` returns: the verification vector, to be
      published, and one secret-key share per member id, in the order of the ids. */
  datatype Contribution = Contribution(verificationVector: seq<Point>, secretKeyContribution: seq<Scalar>)

  function Max(a: nat, b: nat): nat {
    if a < b then b else a
  }

  // ---------------------------------------------------------------------
  // Generating a contribution

  /** The coefficients of the secret polynomial of `generateZeroContribution`:
      the zero scalar, then one CSPRNG draw for each index from 1 up to the
      threshold. With a threshold of 0 the polynomial is still `[0]`. */
  function ZeroPolynomial(threshold: nat, rng: seq<Scalar>): (svec: seq<Scalar>)
    requires threshold <= |rng| + 1
  {
    [0] + rng[..if threshold == 0 then 0 else threshold - 1]
  }

  /** `generateContribution(bls, ids, threshold)`. The CSPRNG is the
      parameter `rng`: the i-th call to `secretKeySetByCSPRNG` yields `rng[i]`. */
  method GenerateContribution(ids: seq<Scalar>, threshold: nat, rng: seq<Scalar>) returns (c: Contribution)
    requires threshold <= |rng|
    ensures |c.verificationVector| == threshold
    ensures forall i :: 0 <= i < threshold ==> c.verificationVector[i] == PublicOf(rng[i])
    ensures |c.secretKeyContribution| == |ids|
    ensures forall j :: 0 <= j < |ids| ==> c.secretKeyContribution[j] == SecretKeyShare(rng[..threshold], ids[j])
    ensures forall j :: 0 <= j < |ids| ==>
              VerifyContributionShare(ids[j], c.secretKeyContribution[j], c.verificationVector)
  {
    var vvec: seq<Point> := [];
    var svec: seq<Scalar> := [];
    var skContribution: seq<Scalar> := [];
    for i := 0 to threshold
      invariant svec == rng[..i]
      invariant |vvec| == i
      invariant forall k :: 0 <= k < i ==> vvec[k] == PublicOf(svec[k])
    {
      var sk := rng[i];
      svec := svec + [sk];
      var pk := PublicOf(sk);
      vvec := vvec + [pk];
    }
    assert vvec == PublicKeys(svec);
    skContribution := ShareAmong(svec, ids);
    c := Contribution(vvec, skContribution);
  }

  /** `generateZeroContribution(bls, ids, threshold)`: the same, with the
      constant coefficient forced to the zero scalar; only `threshold - 1`
      values are drawn from `rng`. */
  method GenerateZeroContribution(ids: seq<Scalar>, threshold: nat, rng: seq<Scalar>) returns (c: Contribution)
    requires threshold <= |rng| + 1
    ensures |c.verificationVector| == Max(threshold, 1)
    ensures c.verificationVector[0] == PublicOf(0) == Identity
    ensures forall i :: 1 <= i < |c.verificationVector| ==> c.verificationVector[i] == PublicOf(rng[i - 1])
    ensures |c.secretKeyContribution| == |ids|
    ensures forall j :: 0 <= j < |ids| ==>
              c.secretKeyContribution[j] == SecretKeyShare(ZeroPolynomial(threshold, rng), ids[j])
    ensures SecretKeyShare(ZeroPolynomial(threshold, rng), 0) == 0
    ensures forall j :: 0 <= j < |ids| ==>
              VerifyContributionShare(ids[j], c.secretKeyContribution[j], c.verificationVector)
  {
    var vvec: seq<Point> := [];
    var svec: seq<Scalar> := [];
    var skContribution: seq<Scalar> := [];
    var zeroSK: Scalar := 0;
    svec := svec + [zeroSK];
    var zeroPK := PublicOf(zeroSK);
    vvec := vvec + [zeroPK];
    var i := 1;
    while i < threshold
      invariant 1 <= i <= Max(threshold, 1)
      invariant svec == [0] + rng[..i - 1]
      invariant |vvec| == i
      invariant forall k :: 0 <= k < i ==> vvec[k] == PublicOf(svec[k])
    {
      var sk := rng[i - 1];
      svec := svec + [sk];
      var pk := PublicOf(sk);
      vvec := vvec + [pk];
      i := i + 1;
    }
    assert svec == ZeroPolynomial(threshold, rng);
    assert vvec == PublicKeys(svec);
    SecretKeyShareAtZero(svec);
    skContribution := ShareAmong(svec, ids);
    c := Contribution(vvec, skContribution);
  }

  /** The loop over the ids shared by both generators: one evaluation of the
      secret polynomial per id, in the order of the ids. Each share passes the
      Feldman check against the commitments to `svec`. */
  method ShareAmong(svec: seq<Scalar>, ids: seq<Scalar>) returns (skContribution: seq<Scalar>)
    ensures |skContribution| == |ids|
    ensures forall j :: 0 <= j < |ids| ==> skContribution[j] == SecretKeyShare(svec, ids[j])
    ensures forall j :: 0 <= j < |ids| ==> VerifyContributionShare(ids[j], skContribution[j], PublicKeys(svec))
  {
    skContribution := [];
    for j := 0 to |ids|
      invariant |skContribution| == j
      invariant forall k :: 0 <= k < j ==> skContribution[k] == SecretKeyShare(svec, ids[k])
    {
      var sk := SecretKeyShare(svec, ids[j]);
      skContribution := skContribution + [sk];
    }
    forall j | 0 <= j < |ids|
      ensures VerifyContributionShare(ids[j], skContribution[j], PublicKeys(svec))
    {
      VerifyIffHonest(svec, ids[j], skContribution[j]);
    }
  }

  // ---------------------------------------------------------------------
  // Verifying a share

  /** `verifyContributionShare(bls, id, contribution, vvec)`: the Feldman
      check that the share received by member `id` is consistent with the
      sender's published verification vector. */
  function VerifyContributionShare(id: Scalar, contribution: Scalar, vvec: seq<Point>): bool {
    var pk1 := PublicKeyShare(vvec, id);
    var pk2 := PublicOf(contribution);
    pk1 == pk2
  }

  /** Against the commitments to a polynomial, the check accepts a share
      exactly when it is that polynomial's value at the receiver's id:
      honest shares pass, and any other share is rejected. */
  lemma VerifyIffHonest(svec: seq<Scalar>, id: Scalar, share: Scalar)
    ensures VerifyContributionShare(id, share, PublicKeys(svec)) <==> share == SecretKeyShare(svec, id)
  {
    PublicKeyShareOfPublicKeys(svec, id);
    if VerifyContributionShare(id, share, PublicKeys(svec)) {
      PublicOfInjective(share, SecretKeyShare(svec, id));
    }
  }

  // ---------------------------------------------------------------------
  // Adding secret-key shares

  /** The field sum of a sequence of shares, added from the left. */
  function SumShares(shares: seq<Scalar>): Scalar {
    if shares == [] then 0 else ScalarAdd(SumShares(shares[..|shares| - 1]), shares[|shares| - 1])
  }

  /** The caller's array of secret-key shares, which `addContributionShares` pops. */
  class ShareArray {
    var elems: seq<Scalar>

    constructor (elems: seq<Scalar>)
      ensures this.elems == elems
    {
      this.elems := elems;
    }

    /** `Array.prototype.pop`: removes and returns the last element, or
        returns nothing when the array is empty. */
    method Pop() returns (last: Option<Scalar>)
      modifies this
      ensures old(elems) == [] ==> last == None && elems == []
      ensures old(elems) != [] ==>
                last == Some(old(elems)[|old(elems)| - 1]) && elems == old(elems)[..|old(elems)| - 1]
    {
      if elems == [] {
        last := None;
      } else {
        last := Some(elems[|elems| - 1]);
        elems := elems[..|elems| - 1];
      }
    }
  }

  /** `addContributionShares(bls, secretKeyShares)`: pops the last share and
      adds every remaining share into it, in array order. An empty array
      yields no key (the library returns `undefined`). */
  method AddContributionShares(secretKeyShares: ShareArray) returns (first: Option<Scalar>)
    modifies secretKeyShares
    ensures old(secretKeyShares.elems) == [] ==> first == None && secretKeyShares.elems == []
    ensures old(secretKeyShares.elems) != [] ==>
              && first == Some(SumShares(old(secretKeyShares.elems)))
              && secretKeyShares.elems == old(secretKeyShares.elems)[..|old(secretKeyShares.elems)| - 1]
  {
    ghost var all := secretKeyShares.elems;
    first := secretKeyShares.Pop();
    if first.Some? {
      var rest := secretKeyShares.elems;
      var acc := first.value;
      for k := 0 to |rest|
        invariant secretKeyShares.elems == rest
        invariant acc == ScalarAdd(SumShares(rest[..k]), first.value)
      {
        assert rest[..k + 1][..k] == rest[..k];
        ScalarAddSwap(SumShares(rest[..k]), first.value, rest[k]);
        acc := ScalarAdd(acc, rest[k]);
      }
      assert rest[..|rest|] == rest;
      assert all == rest + [first.value];
      assert all[..|all| - 1] == rest;
      first := Some(acc);
    }
  }

  /** Removing one share from the middle of the sum and adding it last does
      not change the sum. */
  lemma {:induction false} SumSharesRemove(s: seq<Scalar>, j: nat)
    requires j < |s|
    ensures SumShares(s) == ScalarAdd(SumShares(s[..j] + s[j + 1..]), s[j])
  {
    var n := |s| - 1;
    if j < n {
      var t := s[..n];
      SumSharesRemove(t, j);
      assert t[..j] + t[j + 1..] + [s[n]] == s[..j] + s[j + 1..];
      assert (s[..j] + s[j + 1..])[..n - 1] == t[..j] + t[j + 1..];
      ScalarAddSwap(SumShares(t[..j] + t[j + 1..]), t[j], s[n]);
    } else {
      assert s[..j] + s[j + 1..] == s[..n];
    }
  }

  /** The sum of shares does not depend on their order: any permutation of the
      shares adds up to the same secret-key share. */
  lemma {:induction false} SumSharesPermutation(a: seq<Scalar>, b: seq<Scalar>)
    requires multiset(a) == multiset(b)
    ensures SumShares(a) == SumShares(b)
  {
    if a == [] {
      assert |b| == |multiset(b)| == 0;
    } else {
      var n := |a| - 1;
      var x := a[n];
      assert a == a[..n] + [x];
      assert x in multiset(b);
      var j :| 0 <= j < |b| && b[j] == x;
      assert b == b[..j] + [b[j]] + b[j + 1..];
      assert multiset(a) == multiset(a[..n]) + multiset{x};
      assert multiset(b) == multiset(b[..j] + b[j + 1..]) + multiset{x};
      assert multiset(a[..n]) == multiset(a) - multiset{x};
      assert multiset(b[..j] + b[j + 1..]) == multiset(b) - multiset{x};
      assert multiset(a[..n]) == multiset(b[..j] + b[j + 1..]);
      SumSharesPermutation(a[..n], b[..j] + b[j + 1..]);
      SumSharesRemove(b, j);
    }
  }

  // ---------------------------------------------------------------------
  // Adding verification vectors

  /** Entry `i` of a verification vector, or the neutral point past its end. */
  function At(vvec: seq<Point>, i: nat): Point {
    if i < |vvec| then vvec[i] else Identity
  }

  /** One pass of the outer loop of `addVerificationVectors`: the running
      group vector and the next vector added entry by entry; the result is as
      long as the longer of the two. */
  function AddVector(g: seq<Point>, v: seq<Point>): (r: seq<Point>)
    ensures |r| == Max(|g|, |v|)
    ensures forall i :: 0 <= i < |r| ==> r[i] == PointAdd(At(g, i), At(v, i))
  {
    if g == [] then v
    else if v == [] then g
    else [PointAdd(g[0], v[0])] + AddVector(g[1..], v[1..])
  }

  /** The group vector: every verification vector added in, in order. */
  function GroupVector(vvecs: seq<seq<Point>>): seq<Point> {
    if vvecs == [] then []
    else AddVector(GroupVector(vvecs[..|vvecs| - 1]), vvecs[|vvecs| - 1])
  }

  /** The length of the longest vector. */
  function MaxLen(vvecs: seq<seq<Point>>): nat {
    if vvecs == [] then 0 else Max(MaxLen(vvecs[..|vvecs| - 1]), |vvecs[|vvecs| - 1]|)
  }

  /** The group sum of entry `i` of every vector that has an entry `i`. */
  function ColumnSum(vvecs: seq<seq<Point>>, i: nat): Point {
    if vvecs == [] then Identity
    else PointAdd(ColumnSum(vvecs[..|vvecs| - 1], i), At(vvecs[|vvecs| - 1], i))
  }

  /** The group vector is as long as the longest input vector, and each of
      its entries is the sum of that column of the inputs. */
  lemma {:induction false} GroupVectorColumns(vvecs: seq<seq<Point>>)
    ensures |GroupVector(vvecs)| == MaxLen(vvecs)
    ensures forall i: nat :: At(GroupVector(vvecs), i) == ColumnSum(vvecs, i)
  {
    if vvecs != [] {
      var prefix := vvecs[..|vvecs| - 1];
      GroupVectorColumns(prefix);
    }
  }

  /** Extending the vector being added by one entry updates or extends the
      running group vector at that index, as the inner loop does. */
  lemma AddVectorStep(g: seq<Point>, v: seq<Point>, i: nat)
    requires i < |v|
    ensures var r := AddVector(g, v[..i]);
            AddVector(g, v[..i + 1]) ==
              if i < |r| then r[i := PointAdd(r[i], v[i])] else r + [v[i]]
  {
    var r := AddVector(g, v[..i]);
    var r' := AddVector(g, v[..i + 1]);
    if i < |r| {
      assert |r'| == |r|;
      forall k | 0 <= k < |r| ensures r'[k] == r[i := PointAdd(r[i], v[i])][k] {
        if k == i {
          assert At(v[..i], i) == Identity;
        }
      }
    } else {
      assert |r'| == |r| + 1;
      forall k | 0 <= k < |r'| ensures r'[k] == (r + [v[i]])[k] {
      }
    }
  }

  /** `addVerificationVectors(bls, vvecs)`: adds the vectors entry by entry
      into the group vector, which grows to the length of the longest input.
      Entry 0 of the result is the group public key. */
  method AddVerificationVectors(vvecs: seq<seq<Point>>) returns (groupsVvec: seq<Point>)
    ensures |groupsVvec| == MaxLen(vvecs)
    ensures forall i :: 0 <= i < |groupsVvec| ==> groupsVvec[i] == ColumnSum(vvecs, i)
    ensures groupsVvec == GroupVector(vvecs)
  {
    groupsVvec := [];
    for a := 0 to |vvecs|
      invariant groupsVvec == GroupVector(vvecs[..a])
    {
      var vvec := vvecs[a];
      for i := 0 to |vvec|
        invariant groupsVvec == AddVector(GroupVector(vvecs[..a]), vvec[..i])
      {
        AddVectorStep(GroupVector(vvecs[..a]), vvec, i);
        var pk2 := vvec[i];
        if i < |groupsVvec| {
          var pk1 := groupsVvec[i];
          groupsVvec := groupsVvec[i := PointAdd(pk1, pk2)];
        } else {
          groupsVvec := groupsVvec + [pk2];
        }
      }
      assert vvec[..|vvec|] == vvec;
      assert vvecs[..a + 1][..a] == vvecs[..a];
    }
    assert vvecs[..|vvecs|] == vvecs;
    GroupVectorColumns(vvecs);
    forall i | 0 <= i < |groupsVvec| ensures groupsVvec[i] == ColumnSum(vvecs, i) {
      assert At(groupsVvec, i) == groupsVvec[i];
    }
  }

  // ---------------------------------------------------------------------
  // Why aggregation works

  /** Evaluating a sum of vectors in the group gives the sum of the evaluations. */
  lemma {:induction false} PublicKeyShareOfAddVector(g: seq<Point>, v: seq<Point>, id: Scalar)
    ensures PublicKeyShare(AddVector(g, v), id) == PointAdd(PublicKeyShare(g, id), PublicKeyShare(v, id))
  {
    if g == [] {
      assert PointAdd(Identity, PublicKeyShare(v, id)) == PublicKeyShare(v, id);
    } else if v == [] {
      assert PointAdd(PublicKeyShare(g, id), Identity) == PublicKeyShare(g, id);
    } else {
      var r := AddVector(g, v);
      assert r[1..] == AddVector(g[1..], v[1..]);
      var eg := PublicKeyShare(g[1..], id);
      var ev := PublicKeyShare(v[1..], id);
      PublicKeyShareOfAddVector(g[1..], v[1..], id);
      PointMulDistributes(eg, ev, id);
      PointAddInterchange(g[0], v[0], PointMul(eg, id), PointMul(ev, id));
    }
  }

  /** If each share passes the Feldman check against its sender's vector,
      the sum of the shares passes it against the sum of the vectors. */
  lemma {:induction false} AggregatedShareVerifies(id: Scalar, shares: seq<Scalar>, vvecs: seq<seq<Point>>)
    requires |shares| == |vvecs|
    requires forall q :: 0 <= q < |shares| ==> VerifyContributionShare(id, shares[q], vvecs[q])
    ensures VerifyContributionShare(id, SumShares(shares), GroupVector(vvecs))
  {
    if shares != [] {
      var n := |shares| - 1;
      AggregatedShareVerifies(id, shares[..n], vvecs[..n]);
      PublicOfAdd(SumShares(shares[..n]), shares[n]);
      PublicKeyShareOfAddVector(GroupVector(vvecs[..n]), vvecs[n], id);
    }
  }

  /** The shares addressed to the member at position `j`, one per contribution. */
  function ReceivedShares(contributions: seq<Contribution>, j: nat): (shares: seq<Scalar>)
    requires forall q :: 0 <= q < |contributions| ==> j < |contributions[q].secretKeyContribution|
  {
    seq(|contributions|, q requires 0 <= q < |contributions| => contributions[q].secretKeyContribution[j])
  }

  /** The published verification vectors, one per contribution. */
  function VerificationVectors(contributions: seq<Contribution>): (vvecs: seq<seq<Point>>) {
    seq(|contributions|, q requires 0 <= q < |contributions| => contributions[q].verificationVector)
  }

  /** A whole round: when every share of every contribution passes the
      Feldman check, each member's sum of received shares has as public key
      the group vector evaluated at that member's id. */
  lemma RoundAggregationCorrect(ids: seq<Scalar>, contributions: seq<Contribution>)
    requires forall q :: 0 <= q < |contributions| ==> |contributions[q].secretKeyContribution| == |ids|
    requires forall q, j :: 0 <= q < |contributions| && 0 <= j < |ids| ==>
               VerifyContributionShare(ids[j], contributions[q].secretKeyContribution[j],
                                       contributions[q].verificationVector)
    ensures forall j :: 0 <= j < |ids| ==>
              PublicOf(SumShares(ReceivedShares(contributions, j)))
              == PublicKeyShare(GroupVector(VerificationVectors(contributions)), ids[j])
  {
    forall j | 0 <= j < |ids|
      ensures PublicOf(SumShares(ReceivedShares(contributions, j)))
              == PublicKeyShare(GroupVector(VerificationVectors(contributions)), ids[j])
    {
      AggregatedShareVerifies(ids[j], ReceivedShares(contributions, j), VerificationVectors(contributions));
    }
  }

  /** Entry 0 of the group vector of honest contributions is the public key of
      the sum of their constant terms: the group secret, which no member ever
      computes. */
  lemma GroupPublicKeyOfSecrets(polynomials: seq<seq<Scalar>>)
    requires forall q :: 0 <= q < |polynomials| ==> |polynomials[q]| > 0
    ensures var group := GroupVector(seq(|polynomials|, q requires 0 <= q < |polynomials| => PublicKeys(polynomials[q])));
            var secret := SumShares(seq(|polynomials|, q requires 0 <= q < |polynomials| => polynomials[q][0]));
            PublicKeyShare(group, 0) == PublicOf(secret)
            && (polynomials != [] ==> |group| > 0 && group[0] == PublicOf(secret))
  {
    var vvecs := seq(|polynomials|, q requires 0 <= q < |polynomials| => PublicKeys(polynomials[q]));
    var secrets := seq(|polynomials|, q requires 0 <= q < |polynomials| => polynomials[q][0]);
    forall q | 0 <= q < |polynomials| ensures VerifyContributionShare(0, secrets[q], vvecs[q]) {
      SecretKeyShareAtZero(polynomials[q]);
      VerifyIffHonest(polynomials[q], 0, secrets[q]);
    }
    AggregatedShareVerifies(0, secrets, vvecs);
    GroupVectorColumns(vvecs);
    if polynomials != [] {
      MaxLenPositive(vvecs);
      var group := GroupVector(vvecs);
      PublicKeyShareAtZero(group);
    }
  }

  lemma {:induction false} MaxLenPositive(vvecs: seq<seq<Point>>)
    requires vvecs != [] && forall q :: 0 <= q < |vvecs| ==> |vvecs[q]| > 0
    ensures MaxLen(vvecs) > 0
  {
  }

  lemma PublicKeyShareAtZero(vvec: seq<Point>)
    requires vvec != []
    ensures PublicKeyShare(vvec, 0) == vvec[0]
  {
  }

  // ---------------------------------------------------------------------
  // Zero contributions

  /** Adding zero contributions' verification vectors leaves entry 0 of the
      group vector, the group public key, unchanged. */
  lemma {:induction false} ZeroContributionsKeepGroupKey(vvecs: seq<seq<Point>>, zeros: seq<seq<Point>>)
    requires GroupVector(vvecs) != []
    requires forall q :: 0 <= q < |zeros| ==> |zeros[q]| > 0 && zeros[q][0] == PublicOf(0)
    ensures GroupVector(vvecs + zeros) != []
    ensures GroupVector(vvecs + zeros)[0] == GroupVector(vvecs)[0]
  {
    if zeros == [] {
      assert vvecs + zeros == vvecs;
    } else {
      var n := |zeros| - 1;
      var all := vvecs + zeros;
      ZeroContributionsKeepGroupKey(vvecs, zeros[..n]);
      assert all[..|all| - 1] == vvecs + zeros[..n];
      assert all[|all| - 1] == zeros[n];
      AddZeroKeepsHead(GroupVector(vvecs + zeros[..n]), zeros[n]);
    }
  }

  lemma AddZeroKeepsHead(g: seq<Point>, z: seq<Point>)
    requires g != [] && z != [] && z[0] == Identity
    ensures AddVector(g, z) != [] && AddVector(g, z)[0] == g[0]
  {
  }

  /** A renewal round: the previous group vector and the member's previous
      share are aggregated with zero contributions. If every new share passes
      the Feldman check, the member's renewed share passes it against the
      renewed group vector, and the group public key has not moved. */
  lemma Renewal(id: Scalar, oldShare: Scalar, oldGroup: seq<Point>, zeroShares: seq<Scalar>, zeroVvecs: seq<seq<Point>>)
    requires oldGroup != []
    requires VerifyContributionShare(id, oldShare, oldGroup)
    requires |zeroShares| == |zeroVvecs|
    requires forall q :: 0 <= q < |zeroVvecs| ==>
               |zeroVvecs[q]| > 0 && zeroVvecs[q][0] == PublicOf(0)
               && VerifyContributionShare(id, zeroShares[q], zeroVvecs[q])
    ensures var newGroup := GroupVector([oldGroup] + zeroVvecs);
            newGroup != [] && newGroup[0] == oldGroup[0]
            && VerifyContributionShare(id, SumShares([oldShare] + zeroShares), newGroup)
  {
    assert [oldGroup][..0] == [];
    assert GroupVector([oldGroup]) == oldGroup;
    ZeroContributionsKeepGroupKey([oldGroup], zeroVvecs);
    AggregatedShareVerifies(id, [oldShare] + zeroShares, [oldGroup] + zeroVvecs);
  }
}
