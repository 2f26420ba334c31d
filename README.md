# sslvrfy chain-verdict walk in Dafny

sslvrfy connects to a TLS server and judges the certificate chain the server
presents. Its only real logic is the loop in `main`. The loop visits the
presented certificates from the outermost one (index n-1) down to the leaf
(index 0). For each certificate it:

- adds the certificate to a growing certificate pool;
- checks the certificate's signature against the next certificate toward the
  root, and against the certificate itself (all but the outermost);
- verifies the certificate, against the system roots for the outermost and
  against the pool for the others, with the server name only for the leaf;
- on the leaf, runs the chain-order check and computes the remaining days.

It folds six integer verdicts on the way: `isRootKnownCert`,
`isChainValidated`, `isValidated`, `isSelfsigned`, `isChainInOrder` and
`notAfterInDays`.

`sslvrfy.dfy` (module `SslVerify`) models that loop. Certificates are an
abstract type `C`, and `==` on it stands for `Certificate.Equal` (identity of
the raw bytes). The two library calls are oracle functions carried by a
`Session`:

- `checkSignatureFrom(child, parent)` is `child.CheckSignatureFrom(parent) == nil`;
- `verify(cert, options)` is `cert.Verify(options)`, giving `Failed` or the
  returned chains.

The session also carries the presented chain, the server name, and the leaf's
remaining whole hours. The pool is a `set<C>`, because Go's certificate pool
ignores a certificate it already holds. `VerifyPresentedChain` is the loop,
with its reverse `while`, the pool, and the six verdict variables.
`CheckChainOrder` is the nested chain-order loop with its `break`. Each method
is proved against declarative definitions. Those definitions state the
verdicts after the certificates at index k and above have been visited
(`RootKnownAfter`, `ChainValidatedAfter`, …), and `Report` holds the final
values. The lemmas state what the source promises about them.

The model keeps these points of the code as they are written:

- The certificate is added to the pool *before* it is verified
  (sslvrfy.go:107 comes before sslvrfy.go:145), so every non-outermost
  certificate is verified against a pool that holds the certificate itself.
- `isRootKnownCert` is decided by the certificates below the outermost one,
  including the leaf, not only by non-leaf certificates.
- The order verdict is decided by the *last* returned chain. A last chain of
  another length gives 1, not 0 (sslvrfy.go:168-180).
- `notAfterInDays` truncates toward zero. A leaf that expired less than 24
  hours ago reports 0 days, not a negative count.

## Model

| member | source | states |
|---|---|---|
| SslVerify.VerifyPresentedChain | sslvrfy.go:94-186 | the reverse walk returns exactly the report defined declaratively from the oracle results: pool, signature checks, verification and leaf steps as in the loop |
| SslVerify.CheckChainOrder | sslvrfy.go:164-180 | the nested loop over returned chains yields 0 without chains, else the verdict of the last chain alone: 0 only for a same-length chain that differs at some position |
| SslVerify.TruncDiv | sslvrfy.go:182 | Go's integer division: the quotient rounds toward zero for both signs of the dividend |
| SslVerify.PoolGrows | sslvrfy.go:107 | adding certificate i to the pool of i+1.. gives exactly the certificates from i up to the outermost |
| SslVerify.VerifySetup | sslvrfy.go:107-145 | Verify for i uses the system store iff i is outermost; otherwise a pool holding exactly certificates i..n-1, including i; the server name only for i = 0 |
| SslVerify.EmptyChainKeepsInitialVerdicts | sslvrfy.go:66-71 | with no certificate presented the verdicts are -1, -1, -1, 0, 0, -1 |
| SslVerify.RootKnownStep | sslvrfy.go:146-157 | one step: a failed Verify below the outermost writes 0; a success writes 1 only over -1; the outermost never writes |
| SslVerify.SelfsignedStep | sslvrfy.go:121-131 | one step: a passed self-signature check below the outermost writes 1; nothing writes 0 |
| SslVerify.SomeCheckFailedStep | sslvrfy.go:121-150 | one step adds the certificate's parent check (below the outermost only) and its Verify to the checks that can fail |
| SslVerify.SelfsignedNeverCleared | sslvrfy.go:128-131 | isSelfsigned starts at 0 (sslvrfy.go:69) and its only write sets 1, so it never goes back from 1 to 0 during the walk |
| SslVerify.RootKnownZeroSticks | sslvrfy.go:146-157 | once isRootKnownCert is 0, a later success does not overwrite it |
| SslVerify.ChainValidatedZeroSticks | sslvrfy.go:158-181 | once isChainValidated is 0 it stays 0, through the product with the order verdict too |
| SslVerify.RootKnownVerdict | sslvrfy.go:146-157 | final isRootKnownCert is -1 iff n <= 1; 0 iff some non-outermost certificate fails Verify; 1 iff n >= 2 and none does |
| SslVerify.SelfsignedVerdict | sslvrfy.go:121-131 | final isSelfsigned is in {0,1} and is 1 iff some certificate below the outermost passes the self check |
| SslVerify.ChainValidatedVerdict | sslvrfy.go:121-181 | for n >= 1 final isChainValidated is in {0,1}, and 1 iff every parent check and every Verify passed and isChainInOrder is 1 |
| SslVerify.ChainValidatedRange | sslvrfy.go:67 | isChainValidated stays -1 only when nothing was presented |
| SslVerify.ValidatedVerdict | sslvrfy.go:185 | isValidated is in {-1,0,1}; -1 iff the chain is empty or a single certificate validated; 1 iff the root is known and the chain validated |
| SslVerify.SingleCertificate | sslvrfy.go:121-185 | a lone certificate gets no parent or self check: root unknown, never self-signed, isValidated is minus the chain verdict |
| SslVerify.UntrustedOutermostFailsChain | sslvrfy.go:145-150 | if the outermost fails Verify against the system store, the chain and the overall verdict are 0 |
| SslVerify.SoundChainValidates | sslvrfy.go:121-185 | with two or more certificates, all checks passing and the order verdict 1, all three validation verdicts are 1 |
| SslVerify.ReorderedChainRejected | sslvrfy.go:164-185 | a same-length last chain in another order gives isChainInOrder 0, isChainValidated 0, isValidated 0 |
| SslVerify.OnlyAdjacentSignaturesConsulted | sslvrfy.go:121-132 | only the signatures of i against i+1 and of i against itself, for i < n-1, affect the report |
| SslVerify.ChainOrderDecidedByLastChain | sslvrfy.go:168-180 | chains before the last one do not change the order verdict |
| SslVerify.ChainOrderVerdict | sslvrfy.go:164-180 | the order verdict is in {0,1}, and 0 iff there are no chains or the last one has length n and differs from the presented chain |
| SslVerify.DaysRemainingSign | sslvrfy.go:182 | notAfterInDays < 0 iff at least 24 hours past notAfter; 0 iff less than 24 hours away on either side |
| SslVerify.DaysRemainingTruncates | sslvrfy.go:182 | worked values: -25 h gives -1 day (flooring would give -2), -5 h gives 0, 240 h gives 10, 239 h gives 9 |

## Left out

- TLS dialing, server-name indication, the 5-second dial timeout, closing the connection and the command-line check with its usage message (sslvrfy.go:75-92, 194-196): network I/O and entry-point plumbing. The walk starts from the presented chain.
- `PrintCert`, `PrintPkixName`, every `fmt.Printf` line and the PEM output (sslvrfy.go:15-62, 98-105, 123-129, 151, 161, 174, 184, 188-193): output formatting only.
- `CheckSignatureFrom` and `Verify` (sslvrfy.go:122, 128, 145): path building and validation under section 6 of RFC 5280, inside Go's crypto/x509. They are oracle functions of the session. The model records which arguments each is called with, not what they compute. So a claim such as "Verify of a certificate that is in its own pool succeeds" is outside the model. One consequence is not proved here, because it comes from how Go's crypto/x509 behaves and not from sslvrfy.go: `Verify` returns the single chain `[c]` when `c` is already in the roots pool. sslvrfy.go:107 adds the leaf to the pool before sslvrfy.go:145 verifies it. So with the real library and n >= 2, the last returned chain has length 1, and `isChainInOrder` is 1 whenever the leaf verifies. In practice `ReorderedChainRejected` would then never apply.
- The oracle may return `Chains([])` (success with no chains). Go's `Verify` never does this. The model then reports the chain out of order, as the Go loop would.
- `time.Now()` and the floating-point `Duration.Hours()` (sslvrfy.go:182): the remaining hours are an input, already truncated toward zero by `int(...)`. Go's 64-bit `int` cannot overflow here, because a `Duration` is bounded by about 2.6 million hours, so the model uses unbounded integers.
- Setting the log flags (sslvrfy.go:73): no effect on the verdicts.
