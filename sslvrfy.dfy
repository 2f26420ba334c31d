/** The verdict walk of sslvrfy: the certificates a TLS server presented are
    visited from the outermost (last) one down to the leaf (index 0); each one
    joins a growing certificate pool, is checked against its parent and against
    itself, and is verified, and six integer verdicts are folded on the way.

    Certificates are an abstract type `C`; `==` on it stands for Go's
    `Certificate.Equal` (identity of the raw DER bytes). The two cryptographic
    library calls are oracles carried by the `Session`. */
module SslVerify {

  /** The trust anchors handed to `Verify`: Go's `Roots: nil` (the host's
      system store) or the certificate pool built by the walk. */
  datatype Roots<C> = SystemRoots | Pool(anchors: set<C>)

  /** The `x509.VerifyOptions` the walk fills in; an empty `dnsName` means no
      host name is checked. */
  datatype VerifyOptions<C> = VerifyOptions(roots: Roots<C>, dnsName: string)

  /** What `cert.Verify` returns: an error (and nil chains), or the chains it
      built, each leaf first. */
  datatype VerifyResult<C> = Failed | Chains(chains: seq<seq<C>>)

  /** Everything the walk consumes: the presented chain (index 0 is the leaf),
      the server name given on the command line, the two library calls, and
      the whole hours from now until the leaf's notAfter, already truncated
      toward zero. */
  datatype Session<!C> = Session(
    peerCertificates: seq<C>,
    serverName: string,
    checkSignatureFrom: (C, C) -> bool,   // child.CheckSignatureFrom(parent) == nil
    verify: (C, VerifyOptions<C>) -> VerifyResult<C>,
    hoursToNotAfter: int)

  /** The six integers printed in the summary block. */
  datatype Verdicts = Verdicts(
    isRootKnownCert: int,
    isChainValidated: int,
    isValidated: int,
    isSelfsigned: int,
    isChainInOrder: int,
    notAfterInDays: int)

  /** Go's integer division, which truncates toward zero (Dafny's `/` is
      Euclidean and rounds a negative dividend down). */
  function TruncDiv(a: int, d: int): (q: int)
    requires d > 0
    ensures a >= 0 ==> 0 <= q && q * d <= a < q * d + d
    ensures a < 0 ==> q <= 0 && q * d - d < a <= q * d
  {
    if a >= 0 then
      assert a == a / d * d + a % d && 0 <= a % d < d;
      a / d
    else
      var m := (-a) / d;
      assert -a == m * d + (-a) % d && 0 <= (-a) % d < d;
      -m
  }

  // ---------------------------------------------------------------------------
  // What each step hands to the library

  /** The certificates presented at index `i` and closer to the root. */
  ghost function PoolFrom<C>(certs: seq<C>, i: nat): set<C>
  {
    set j | i <= j < |certs| :: certs[j]
  }

  /** The options certificate `i` is verified with: the system store for the
      outermost certificate, otherwise the pool, which already holds `i`
      itself; the server name only for the leaf. */
  ghost function OptionsAt<C>(s: Session<C>, i: nat): VerifyOptions<C>
    requires i < |s.peerCertificates|
  {
    VerifyOptions(
      if i == |s.peerCertificates| - 1 then SystemRoots else Pool(PoolFrom(s.peerCertificates, i)),
      if i == 0 then s.serverName else "")
  }

  ghost predicate SignedByParent<C>(s: Session<C>, i: nat)
    requires i + 1 < |s.peerCertificates|
  {
    s.checkSignatureFrom(s.peerCertificates[i], s.peerCertificates[i + 1])
  }

  ghost predicate SignedBySelf<C>(s: Session<C>, i: nat)
    requires i < |s.peerCertificates|
  {
    s.checkSignatureFrom(s.peerCertificates[i], s.peerCertificates[i])
  }

  ghost function VerifyAt<C>(s: Session<C>, i: nat): VerifyResult<C>
    requires i < |s.peerCertificates|
  {
    s.verify(s.peerCertificates[i], OptionsAt(s, i))
  }

  ghost predicate Verified<C>(s: Session<C>, i: nat)
    requires i < |s.peerCertificates|
  {
    VerifyAt(s, i).Chains?
  }

  /** The chains the leaf's verification returned; none when it failed. */
  ghost function LeafChains<C>(s: Session<C>): seq<seq<C>>
    requires |s.peerCertificates| > 0
  {
    match VerifyAt(s, 0)
    case Failed => []
    case Chains(cs) => cs
  }

  // ---------------------------------------------------------------------------
  // The verdicts once the certificates at index k and above have been visited

  /** -1 while no certificate below the outermost has been visited; then 0 if
      one of them failed to verify, 1 if all of them verified. */
  ghost function RootKnownAfter<C>(s: Session<C>, k: nat): int
    requires k <= |s.peerCertificates|
  {
    if k + 1 >= |s.peerCertificates| then -1
    else if exists j :: k <= j < |s.peerCertificates| - 1 && !Verified(s, j) then 0
    else 1
  }

  /** 1 once a visited certificate below the outermost passed the self-signature check. */
  ghost function SelfsignedAfter<C>(s: Session<C>, k: nat): int
    requires k <= |s.peerCertificates|
  {
    if exists j :: k <= j < |s.peerCertificates| - 1 && SignedBySelf(s, j) then 1 else 0
  }

  /** Some visited certificate failed its parent check or its verification. */
  ghost predicate SomeCheckFailed<C>(s: Session<C>, k: nat)
    requires k <= |s.peerCertificates|
  {
    (exists j :: k <= j < |s.peerCertificates| - 1 && !SignedByParent(s, j)) ||
    (exists j :: k <= j < |s.peerCertificates| && !Verified(s, j))
  }

  /** The order verdict of a list of returned chains: 0 without chains;
      otherwise decided by the last chain alone, which is out of order only
      when it is as long as the presented chain and differs from it somewhere. */
  ghost function ChainInOrder<C>(peerCertificates: seq<C>, certChains: seq<seq<C>>): int
  {
    if certChains == [] then 0
    else
      var chain := certChains[|certChains| - 1];
      if |chain| == |peerCertificates| &&
         exists p :: 0 <= p < |peerCertificates| && peerCertificates[p] != chain[p]
      then 0
      else 1
  }

  ghost function ChainInOrderAfter<C>(s: Session<C>, k: nat): int
    requires k <= |s.peerCertificates|
  {
    if k == 0 && |s.peerCertificates| > 0 then ChainInOrder(s.peerCertificates, LeafChains(s)) else 0
  }

  /** -1 before any certificate is visited; once the leaf is visited, 1 exactly
      when every check passed and the order check said 1; 0 otherwise. */
  ghost function ChainValidatedAfter<C>(s: Session<C>, k: nat): int
    requires k <= |s.peerCertificates|
  {
    if k == |s.peerCertificates| then -1
    else if SomeCheckFailed(s, k) then 0
    else if k == 0 && ChainInOrderAfter(s, 0) != 1 then 0
    else 1
  }

  ghost function ValidatedAfter<C>(s: Session<C>, k: nat): int
    requires k <= |s.peerCertificates|
  {
    if k == |s.peerCertificates| then -1 else RootKnownAfter(s, k) * ChainValidatedAfter(s, k)
  }

  ghost function NotAfterInDaysAfter<C>(s: Session<C>, k: nat): int
    requires k <= |s.peerCertificates|
  {
    if k == 0 && |s.peerCertificates| > 0 then TruncDiv(s.hoursToNotAfter, 24) else -1
  }

  /** The verdicts the walk reports once it has visited the whole chain. */
  ghost function Report<C>(s: Session<C>): Verdicts
  {
    Verdicts(RootKnownAfter(s, 0), ChainValidatedAfter(s, 0), ValidatedAfter(s, 0),
             SelfsignedAfter(s, 0), ChainInOrderAfter(s, 0), NotAfterInDaysAfter(s, 0))
  }

  // ---------------------------------------------------------------------------
  // The walk

  /** The order check run on the leaf: every returned chain resets the verdict
      to 1, and a chain as long as the presented one sets it back to 0 at the
      first position where the two differ. */
  method CheckChainOrder<C(==)>(peerCertificates: seq<C>, certChains: seq<seq<C>>)
    returns (isChainInOrder: int)
    ensures isChainInOrder == ChainInOrder(peerCertificates, certChains)
  {
    isChainInOrder := 0;
    for c := 0 to |certChains|
      invariant isChainInOrder == ChainInOrder(peerCertificates, certChains[..c])
    {
      var chain := certChains[c];
      isChainInOrder := 1;
      if |chain| == |peerCertificates| {
        var p := 0;
        while p < |peerCertificates|
          invariant 0 <= p <= |peerCertificates|
          invariant isChainInOrder == 1
          invariant forall q :: 0 <= q < p ==> peerCertificates[q] == chain[q]
        {
          if peerCertificates[p] != chain[p] {
            isChainInOrder := 0;
            break;
          }
          p := p + 1;
        }
      }
      assert certChains[..c + 1][c] == chain;
    }
    assert certChains[..|certChains|] == certChains;
  }

  /** The loop of `main` from the first certificate visited to the summary:
      visits index n-1 down to 0 and returns the six verdicts. */
  method VerifyPresentedChain<C(==)>(s: Session<C>) returns (v: Verdicts)
    ensures v == Report(s)
  {
    var isRootKnownCert := -1;
    var isChainValidated := -1;
    var isValidated := -1;
    var isSelfsigned := 0;
    var isChainInOrder := 0;
    var notAfterInDays := -1;

    var peers := s.peerCertificates;
    var n := |peers|;
    var certPool: set<C> := {};
    var i := n - 1;
    while i >= 0
      invariant -1 <= i < n
      invariant certPool == PoolFrom(peers, i + 1)
      invariant isRootKnownCert == RootKnownAfter(s, i + 1)
      invariant isSelfsigned == SelfsignedAfter(s, i + 1)
      invariant isChainValidated == ChainValidatedAfter(s, i + 1)
      invariant isValidated == ValidatedAfter(s, i + 1)
      invariant isChainInOrder == ChainInOrderAfter(s, i + 1)
      invariant notAfterInDays == NotAfterInDaysAfter(s, i + 1)
    {
      var cert := peers[i];
      PoolGrows(peers, i);
      RootKnownStep(s, i);
      SelfsignedStep(s, i);
      SomeCheckFailedStep(s, i);
      certPool := certPool + {cert};

      var opts := VerifyOptions(SystemRoots, "");

      if i != n - 1 {
        if !s.checkSignatureFrom(cert, peers[i + 1]) {
          isChainValidated := 0;
        }
        if s.checkSignatureFrom(cert, cert) {
          isSelfsigned := 1;
        }
      }

      if i != n - 1 {
        opts := opts.(roots := Pool(certPool));
      }
      if i == 0 {
        opts := opts.(dnsName := s.serverName);
      }

      assert opts == OptionsAt(s, i);
      var certChains := s.verify(cert, opts);
      if certChains.Failed? {
        if i != n - 1 {
          isRootKnownCert := 0;
        }
        isChainValidated := 0;
      } else {
        if i != n - 1 {
          if isRootKnownCert == -1 {
            isRootKnownCert := 1;
          }
        }
        if isChainValidated == -1 {
          isChainValidated := 1;
        }
      }

      if i == 0 {
        isChainInOrder := CheckChainOrder(peers, if certChains.Chains? then certChains.chains else []);
        isChainValidated := isChainValidated * isChainInOrder;
        notAfterInDays := TruncDiv(s.hoursToNotAfter, 24);
      }
      isValidated := isRootKnownCert * isChainValidated;
      i := i - 1;
    }

    v := Verdicts(isRootKnownCert, isChainValidated, isValidated,
                  isSelfsigned, isChainInOrder, notAfterInDays);
  }

  // ---------------------------------------------------------------------------
  // Properties of the walk

  /** Adding certificate i to the pool of i+1.. gives the pool of i.. . */
  lemma PoolGrows<C>(certs: seq<C>, i: nat)
    requires i < |certs|
    ensures PoolFrom(certs, i) == PoolFrom(certs, i + 1) + {certs[i]}
  {
  }

  /** Visiting certificate i: a failed verification below the outermost
      writes 0, a success writes 1 only over -1. */
  lemma RootKnownStep<C>(s: Session<C>, i: nat)
    requires i < |s.peerCertificates|
    ensures RootKnownAfter(s, i) ==
      if i == |s.peerCertificates| - 1 then RootKnownAfter(s, i + 1)
      else if !Verified(s, i) then 0
      else if RootKnownAfter(s, i + 1) == -1 then 1
      else RootKnownAfter(s, i + 1)
  {
  }

  /** Visiting certificate i: a passed self-signature check below the
      outermost writes 1, nothing writes 0. */
  lemma SelfsignedStep<C>(s: Session<C>, i: nat)
    requires i < |s.peerCertificates|
    ensures SelfsignedAfter(s, i) ==
      if i < |s.peerCertificates| - 1 && SignedBySelf(s, i) then 1 else SelfsignedAfter(s, i + 1)
  {
  }

  /** Visiting certificate i adds its parent check (below the outermost) and
      its verification to the checks that can have failed. */
  lemma SomeCheckFailedStep<C>(s: Session<C>, i: nat)
    requires i < |s.peerCertificates|
    ensures SomeCheckFailed(s, i) <==>
      (i < |s.peerCertificates| - 1 && !SignedByParent(s, i)) || !Verified(s, i) ||
      SomeCheckFailed(s, i + 1)
  {
  }

  /** With nothing presented the loop never runs and every verdict keeps its
      initial value. */
  lemma EmptyChainKeepsInitialVerdicts<C>(s: Session<C>)
    requires s.peerCertificates == []
    ensures Report(s) == Verdicts(-1, -1, -1, 0, 0, -1)
  {
  }

  /** The options each verification is given: the outermost certificate goes
      to the system store, every other one to a pool holding exactly the
      certificates from itself up to the outermost; only the leaf is checked
      against the server name. */
  lemma VerifySetup<C>(s: Session<C>, i: nat)
    requires i < |s.peerCertificates|
    ensures OptionsAt(s, i).roots == SystemRoots <==> i == |s.peerCertificates| - 1
    ensures OptionsAt(s, i).roots.Pool? ==>
      s.peerCertificates[i] in OptionsAt(s, i).roots.anchors &&
      forall c :: c in OptionsAt(s, i).roots.anchors <==>
        exists j :: i <= j < |s.peerCertificates| && s.peerCertificates[j] == c
    ensures OptionsAt(s, i).dnsName == if i == 0 then s.serverName else ""
  {
  }

  /** isSelfsigned never goes back from 1 to 0 as the walk moves toward the leaf. */
  lemma SelfsignedNeverCleared<C>(s: Session<C>, k: nat, k': nat)
    requires k' <= k <= |s.peerCertificates|
    requires SelfsignedAfter(s, k) == 1
    ensures SelfsignedAfter(s, k') == 1
  {
  }

  /** isRootKnownCert: once 0, a later verification success does not bring it
      back to 1. */
  lemma RootKnownZeroSticks<C>(s: Session<C>, k: nat, k': nat)
    requires k' <= k <= |s.peerCertificates|
    requires RootKnownAfter(s, k) == 0
    ensures RootKnownAfter(s, k') == 0
  {
  }

  /** isChainValidated: once 0, it stays 0, through the multiplication by the
      order verdict as well. */
  lemma ChainValidatedZeroSticks<C>(s: Session<C>, k: nat, k': nat)
    requires k' <= k < |s.peerCertificates|
    requires ChainValidatedAfter(s, k) == 0
    ensures ChainValidatedAfter(s, k') == 0
  {
  }

  /** isRootKnownCert ends as -1 exactly when there is at most one certificate;
      otherwise 0 if a certificate below the outermost failed to verify, 1 if
      none did. */
  lemma RootKnownVerdict<C>(s: Session<C>)
    ensures Report(s).isRootKnownCert == -1 <==> |s.peerCertificates| <= 1
    ensures Report(s).isRootKnownCert == 0 <==>
      exists i :: 0 <= i < |s.peerCertificates| - 1 && !Verified(s, i)
    ensures Report(s).isRootKnownCert == 1 <==>
      |s.peerCertificates| >= 2 && forall i :: 0 <= i < |s.peerCertificates| - 1 ==> Verified(s, i)
  {
  }

  /** isSelfsigned ends as 1 exactly when a certificate below the outermost
      passed the self-signature check, and as 0 otherwise. */
  lemma SelfsignedVerdict<C>(s: Session<C>)
    ensures Report(s).isSelfsigned in {0, 1}
    ensures Report(s).isSelfsigned == 1 <==>
      exists i :: 0 <= i < |s.peerCertificates| - 1 && SignedBySelf(s, i)
  {
  }

  /** With at least one certificate, isChainValidated ends in {0, 1}, and is 1
      exactly when every parent check and every verification passed and the
      order verdict is 1. */
  lemma ChainValidatedVerdict<C>(s: Session<C>)
    requires |s.peerCertificates| >= 1
    ensures Report(s).isChainValidated in {0, 1}
    ensures Report(s).isChainValidated == 1 <==>
      (forall i :: 0 <= i < |s.peerCertificates| - 1 ==> SignedByParent(s, i)) &&
      (forall i :: 0 <= i < |s.peerCertificates| ==> Verified(s, i)) &&
      Report(s).isChainInOrder == 1
  {
  }

  /** isValidated is the product of the other two tri-state verdicts, so it
      lies in {-1, 0, 1}; -1 only for an empty chain or for a single
      certificate whose chain validated; 1 only when the root is known and the
      chain validated. */
  lemma ValidatedVerdict<C>(s: Session<C>)
    ensures Report(s).isValidated in {-1, 0, 1}
    ensures Report(s).isValidated == -1 <==>
      |s.peerCertificates| == 0 ||
      (|s.peerCertificates| == 1 && Report(s).isChainValidated == 1)
    ensures Report(s).isValidated == 1 <==>
      Report(s).isRootKnownCert == 1 && Report(s).isChainValidated == 1
  {
  }

  /** isChainValidated is -1 only when nothing was presented. */
  lemma ChainValidatedRange<C>(s: Session<C>)
    ensures Report(s).isChainValidated in {-1, 0, 1}
    ensures Report(s).isChainValidated == -1 <==> |s.peerCertificates| == 0
  {
  }

  /** A certificate presented alone: no parent and no self-signature check is
      made, so the root is unknown, it is never reported self-signed, and
      isValidated is the negated chain verdict. */
  lemma SingleCertificate<C>(s: Session<C>)
    requires |s.peerCertificates| == 1
    ensures Report(s).isRootKnownCert == -1
    ensures Report(s).isSelfsigned == 0
    ensures Report(s).isChainValidated == 1 <==> Verified(s, 0) && Report(s).isChainInOrder == 1
    ensures Report(s).isValidated == -Report(s).isChainValidated
  {
  }

  /** A chain whose outermost certificate does not verify against the system
      store never validates, whatever the pairwise signature checks say. */
  lemma UntrustedOutermostFailsChain<C>(s: Session<C>)
    requires |s.peerCertificates| >= 1
    requires !Verified(s, |s.peerCertificates| - 1)
    ensures Report(s).isChainValidated == 0
    ensures Report(s).isValidated == 0
  {
  }

  /** A chain of two or more certificates in which every check passes and
      whose order verdict is 1 is reported fully validated. */
  lemma SoundChainValidates<C>(s: Session<C>)
    requires |s.peerCertificates| >= 2
    requires forall i :: 0 <= i < |s.peerCertificates| - 1 ==> SignedByParent(s, i)
    requires forall i :: 0 <= i < |s.peerCertificates| ==> Verified(s, i)
    requires ChainInOrder(s.peerCertificates, LeafChains(s)) == 1
    ensures Report(s).isRootKnownCert == 1
    ensures Report(s).isChainValidated == 1
    ensures Report(s).isValidated == 1
  {
  }

  /** When the leaf's last returned chain is as long as the presented one but
      in another order, the chain is reported out of order and not validated,
      even if every signature check passed. */
  lemma ReorderedChainRejected<C>(s: Session<C>)
    requires |s.peerCertificates| >= 1
    requires LeafChains(s) != []
    requires |LeafChains(s)[|LeafChains(s)| - 1]| == |s.peerCertificates|
    requires LeafChains(s)[|LeafChains(s)| - 1] != s.peerCertificates
    ensures Report(s).isChainInOrder == 0
    ensures Report(s).isChainValidated == 0
    ensures Report(s).isValidated == 0
  {
  }

  /** Only certificate i's signature against i+1 and against itself, for i
      below the outermost, are ever consulted: two signature oracles that
      agree on those pairs give the same report. */
  lemma OnlyAdjacentSignaturesConsulted<C>(s: Session<C>, t: Session<C>)
    requires t == s.(checkSignatureFrom := t.checkSignatureFrom)
    requires forall i :: 0 <= i < |s.peerCertificates| - 1 ==>
      SignedByParent(s, i) == SignedByParent(t, i) && SignedBySelf(s, i) == SignedBySelf(t, i)
    ensures Report(s) == Report(t)
  {
    var n := |s.peerCertificates|;
    forall i | 0 <= i < n ensures VerifyAt(s, i) == VerifyAt(t, i) {
      assert OptionsAt(s, i) == OptionsAt(t, i);
    }
    if (exists j :: 0 <= j < n - 1 && !SignedByParent(s, j)) {
      var j :| 0 <= j < n - 1 && !SignedByParent(s, j);
      assert !SignedByParent(t, j);
    }
    if (exists j :: 0 <= j < n - 1 && !SignedByParent(t, j)) {
      var j :| 0 <= j < n - 1 && !SignedByParent(t, j);
      assert !SignedByParent(s, j);
    }
    if (exists j :: 0 <= j < n && !Verified(s, j)) {
      var j :| 0 <= j < n && !Verified(s, j);
      assert !Verified(t, j);
    }
    if (exists j :: 0 <= j < n && !Verified(t, j)) {
      var j :| 0 <= j < n && !Verified(t, j);
      assert !Verified(s, j);
    }
    assert SomeCheckFailed(s, 0) == SomeCheckFailed(t, 0);
    assert SelfsignedAfter(s, 0) == SelfsignedAfter(t, 0);
    if (exists j :: 0 <= j < n - 1 && !Verified(s, j)) {
      var j :| 0 <= j < n - 1 && !Verified(s, j);
      assert !Verified(t, j);
    }
    if (exists j :: 0 <= j < n - 1 && !Verified(t, j)) {
      var j :| 0 <= j < n - 1 && !Verified(t, j);
      assert !Verified(s, j);
    }
    assert RootKnownAfter(s, 0) == RootKnownAfter(t, 0);
    assert ChainInOrderAfter(s, 0) == ChainInOrderAfter(t, 0);
  }

  /** The order verdict is decided by the last returned chain: the earlier
      ones do not matter. */
  lemma ChainOrderDecidedByLastChain<C>(peerCertificates: seq<C>, earlier: seq<seq<C>>, last: seq<C>)
    ensures ChainInOrder(peerCertificates, earlier + [last]) == ChainInOrder(peerCertificates, [last])
  {
  }

  /** The order verdict is 0 exactly when no chain was returned or the last
      one has the presented length but a different certificate somewhere; a
      last chain of any other length gives 1. */
  lemma ChainOrderVerdict<C>(peerCertificates: seq<C>, certChains: seq<seq<C>>)
    ensures ChainInOrder(peerCertificates, certChains) in {0, 1}
    ensures ChainInOrder(peerCertificates, certChains) == 0 <==>
      certChains == [] ||
      (|certChains[|certChains| - 1]| == |peerCertificates| &&
       certChains[|certChains| - 1] != peerCertificates)
  {
  }

  /** notAfterInDays is negative only once the leaf is a full day past its
      notAfter; a leaf that expired less than 24 hours ago reports 0 days, as
      does one that expires within the next 24 hours. */
  lemma DaysRemainingSign(hours: int)
    ensures TruncDiv(hours, 24) < 0 <==> hours <= -24
    ensures TruncDiv(hours, 24) == 0 <==> -24 < hours < 24
    ensures TruncDiv(hours, 24) > 0 <==> hours >= 24
  {
  }

  /** Truncation, not flooring: a leaf 25 hours past its notAfter reports -1
      day (flooring would give -2), and one 5 hours past reports 0. */
  lemma DaysRemainingTruncates()
    ensures TruncDiv(-25, 24) == -1
    ensures TruncDiv(-5, 24) == 0
    ensures TruncDiv(240, 24) == 10 && TruncDiv(239, 24) == 9
  {
  }
}
