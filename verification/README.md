# HoneyBadger stack: models and proofs

A Dafny model of the asynchronous consensus stack of this repository and of the arithmetic kernels under it, with
machine-checked proofs of what they are for. `dafny verify dfyconfig.toml` checks all of it.

## What is modelled

Each protocol is written three times over, and the parts are proved to fit:

* a class holding the variables of the Python closure, with one method per handler or per stretch of code between two
  waits, each proved equal to a pure function on a record of those variables;
* a state machine over N such records with authenticated channels, a growing set of sent messages, at most f Byzantine
  nodes that may deliver anything at any time, and arbitrary scheduling; an inductive invariant is kept by every step;
* theorems over all runs, of any length.

| Files | Source | Main results |
|---|---|---|
| `BinaryAgreement`, `AgreementRuns`, `AgreementTheorems`, `AgreementProgress`, `AgreementLiveness`, `AgreementSteps` | `honeybadgerbft/core/binaryagreement.py` | agreement, validity, one decision per node, over all rounds; who decides, exactly; no round stands still |
| `Merkle`, `Erasure`, `Padding`, `SystematicCode`, `ReliableBroadcast`, `BroadcastRuns`, `BroadcastTheorems` | `honeybadgerbft/core/reliablebroadcast.py` | agreement, validity, totality; the output depends on the root alone; when decoding undoes encoding, and what an honest leader's broadcast ends in when it does not; for which K padding is injective |
| `CommonSubset`, `SubsetNodes`, `SubsetRuns`, `SubsetTheorems`, `SubsetLiveness` | `honeybadgerbft/core/commonsubset.py` | N broadcasts and N agreements, each the machine above, composed: same tuple everywhere, at least N - f slots, no assertion ever fails, and every node returns once its instances have ended |
| `Dissemination`, `DisseminationRuns`, `DisseminationProgress`, `DisseminationLimits` | `dpid/core/add.py` | a returned value is the common message; the N and f for which that holds, all of them; when a node returns and when it gives up |
| `ThresholdKeys`, `CommonCoin`, `CoinNodes` | `crypto/threshsig/boldyreva.py`, `honeybadgerbft/core/commoncoin.py` | Lagrange reconstruction, any k shares give the same signature, the coin is common |
| `CoinedAgreement` | the two together | agreement that draws its coins from the share collectors refines agreement with one common coin |
| `Limbs`, `Montgomery*` | `pbc-0.5.14/arith/montfp.c` | limb arrays compute the product modulo p exactly when no carry is lost; when that is |
| `Groups`, `Words`, `SignedDigits`, `Pippenger` | `pairing/src/lib.rs` | multi-scalar multiplication is the sum of the products |
| `WindowNaf` | `pairing/src/wnaf.rs` | digits, sparsity, the sum with and without overflow, exponentiation |
| `Polynomials`, `ReedSolomon` | `ntl/rsdecode_impl.h` | Gao decoding is sound and succeeds exactly within the error bound |
| `Fourier` | `ntl/rsdecode_impl.h` | the recursive transform with its cutover equals the naive one |
| `Products`, `SquareRoots` | `pbc-0.5.14/arith/field.c` | sliding-window powers; Tonelli returns a root exactly of squares |
| `VectorCommitment`, `Openings` | `vc.py` | fast generation equals slow, openings verify, exactly when open equals slow_open and what verify accepts |
| `Serializer` | `dpss/core/serializer.py` | the bytes written, parsing undoes printing, the code is prefix-free, exactly which parsed texts were printed |

`Options`, `Quorums`, `Arithmetic` and `PrimeFields` are shared helpers: defaultdicts, counting nodes, division, powers,
congruences and inverses modulo a prime.

How outside code enters: SHA-256 is a free constructor on byte strings, hence injective (a byte string is a sequence of
symbols, each a byte or a whole digest); zfec is any code from which every K of the N stripes rebuild the blocks
(`Erasure.IsErasureCode`, met by `SystematicCode.Systematic`); curve points are any commutative group
(`Groups.IsGroup`); field elements are integers modulo a prime; the selection made from a combined signature is any
function of it.

## Where code and comments differ

* `commoncoin.py` documents a coin whose value is a bit; the code puts a list of selected members, as a string, into the
  queue. The collector is modelled with an arbitrary selection function; the agreement takes the bit that its own
  docstring promises, and `CoinedAgreement` uses a selection that gives bits.
* Padding in `encode` writes `chr(c).encode()`, two bytes from c = 128 on, while `decode` reads one byte. The docstring
  promises recovery from any K stripes for every K; `Erasure.RoundTripIff` says exactly when it holds, and everything
  above carries that condition, which K <= 128 always meets, and `Padding.OutputIs` says what comes out otherwise. For
  K = 196 and for even K from 198 on that can be another message, returned without an error.
* `add` takes every N, but from N = 3f + 2 to 4f + 1 it can return a message other than the common one, and from 4f + 2
  on it never returns any (`DisseminationLimits.SafeIff`).
* `binaryagreement.py` ends the receive greenlet of a node at a malformed message or a repeated AUX or CONF, so a Byzantine
  node can silence honest ones; `AgreementLiveness.SpreadsIff` says how many must go on listening.
* `add` decodes the K lowest-numbered shares it has, so a bad share among them can make it give up at share N although
  2f + 1 good ones are there; `DisseminationProgress.GenuineReturns` is the case in which it does not.
* `mont_mul` drops the carry out of `z[t+i] += ...` in its first addition. `MontgomeryTheorems.MontMulCorrectIff` and
  `MontgomeryTheorems.CarryIsLost` say when that matters, and `MontgomeryTheorems.MontMulRightIff` tells it from the
  operands.
* `wnaf_form` ignores the carry of `add_nocarry`: `WindowNaf.FormSumIff`.
* `open` in `vc.py` removes the first exponent equal to e[i], which need not be the i-th. With positive
  exponents it always computes what `slow_open` does, and always what `verify` accepts, exactly when all entries from
  the one to the other are equal (`Openings.OpenRightIff`), as with the distinct exponents of `keygen`.
* The parser of `dpss/core/serializer.py` takes either end tag for a list or a tuple, and a byte string cut short by the
  end of the text: `Serializer.ParsedWasPrintedIff`, with two such texts in `Serializer.NotPrinted`.
* The comment in `to_radix_2w` bounds a coefficient by 2^w; with a carry on an all-ones window it is 2^w itself, which
  the recentring absorbs (`SignedDigits.NextDigit`).
* The docstring of `merkleTree` gives a list of length 2 * ceil(N); the code makes it twice the next power of two.

## Model

| member | source | states |
|---|---|---|
| BinaryAgreement.Node.ReceiveEst | honeybadgerbft/core/binaryagreement.py:99-133 | An EST updates the fields as the specification says: one vote per sender, relay once at f + 1 votes, acceptance at 2f + 1; a non-bit ends the receive loop, a repetition is skipped |
| BinaryAgreement.Node.ReceiveAux | honeybadgerbft/core/binaryagreement.py:135-157 | An AUX adds one vote; a non-bit or a repetition ends the receive loop |
| BinaryAgreement.Node.ReceiveConf | honeybadgerbft/core/binaryagreement.py:15-34 | A CONF adds one vote; a value other than (0,), (1,), (0, 1) or a repetition ends the receive loop |
| BinaryAgreement.Node.TakeInput | honeybadgerbft/core/binaryagreement.py:176-194 | A bit starts round 0 with it as estimate, broadcast unless a relay already did; anything else stops the node |
| BinaryAgreement.Node.VoteAux | honeybadgerbft/core/binaryagreement.py:198-208 | Any accepted value may become the AUX vote |
| BinaryAgreement.Node.FinishAux | honeybadgerbft/core/binaryagreement.py:213-242 | The AUX wait ends with {1}, {0} or {0, 1}, in this order of tests, and goes on to broadcast its CONF unless the same one was sent |
| BinaryAgreement.Node.FinishConf | honeybadgerbft/core/binaryagreement.py:37-58 | The CONF wait ends with {1}, {0} or {0, 1} by the N - f tests over accepted values |
| BinaryAgreement.Node.UseCoin | honeybadgerbft/core/binaryagreement.py:263-310 | The coin decides, abandons or sets the estimate of the next round |
| AgreementRuns.ConfNotSkipped | honeybadgerbft/core/binaryagreement.py:242-254 | In every reachable state the test on conf_sent succeeds: the CONF phase is never skipped |
| AgreementRuns.RelayBacked | honeybadgerbft/core/binaryagreement.py:117-120 | A value that gets f + 1 votes was the round's estimate of an honest node |
| AgreementRuns.ConfQuorumSound | honeybadgerbft/core/binaryagreement.py:49-56 | A one-value result has N - f possible CONF senders behind it; a two-value result has both values accepted |
| AgreementRuns.StepInv | honeybadgerbft/core/binaryagreement.py:92-288 | Every delivery and every resumption of the main loop keeps the invariant, whatever at most f Byzantine nodes send |
| AgreementRuns.RunInv | honeybadgerbft/core/binaryagreement.py:62-288 | The invariant holds in every state of every run |
| AgreementTheorems.BinValueWasEstimate | honeybadgerbft/core/binaryagreement.py:118-130 | A value in an honest node's bin_values[r] was the round-r estimate of an honest node |
| AgreementTheorems.OneConfirmedValue | honeybadgerbft/core/binaryagreement.py:37-56 | No two honest nodes end the same round's CONF wait with {0} and {1} |
| AgreementTheorems.RoundLock | honeybadgerbft/core/binaryagreement.py:266-310 | Once v is decided in round r, every honest node enters every later round with estimate v |
| AgreementTheorems.LockedBinValues | honeybadgerbft/core/binaryagreement.py:125-133 | In rounds after a decision for v only v can be in bin_values |
| AgreementTheorems.Agreement | honeybadgerbft/core/binaryagreement.py:62-310 | No two honest nodes ever decide different bits, in whatever rounds and at whatever points of a run |
| AgreementTheorems.DecidesOnce | honeybadgerbft/core/binaryagreement.py:291-310 | A node calls decide at most once |
| AgreementTheorems.EstimateWasInput | honeybadgerbft/core/binaryagreement.py:185-310 | Every estimate of every round, set by the coin or not, was the input of an honest node |
| AgreementTheorems.Validity | honeybadgerbft/core/binaryagreement.py:62-310 | Every decided bit was the input of an honest node |
| AgreementProgress.StepAnswered | honeybadgerbft/core/binaryagreement.py:92-288 | The converse invariant, kept by every kind of step: an EST counted f + 1 times was sent and one counted 2f + 1 times is accepted; AUX and CONF were sent, once and for accepted values, in every round whose waits were passed; every CONF result that met the coin has led to a decision, no later than the first of them |
| AgreementProgress.RunAnswered | honeybadgerbft/core/binaryagreement.py:92-288 | So it holds in every state of every run |
| AgreementLiveness.DecidedIff | honeybadgerbft/core/binaryagreement.py:266-310 | A node has decided v in round r exactly when its CONF wait of round r ended with v alone, v is the coin of round r, it is past round r, and no earlier CONF result was the coin |
| AgreementLiveness.Decides | honeybadgerbft/core/binaryagreement.py:291-297 | A node past a round whose CONF result was the coin has decided that value |
| AgreementLiveness.LeavesDecided | honeybadgerbft/core/binaryagreement.py:280-306 | A node given a bit leaves the loop only in a later round that met the coin again, having decided that value |
| AgreementLiveness.Thresholds | honeybadgerbft/core/binaryagreement.py:116-133 | In every reachable state f + 1 votes for an EST were relayed, and a value is in bin_values exactly with 2f + 1 votes |
| AgreementLiveness.ValueAccepted | honeybadgerbft/core/binaryagreement.py:99-133 | Once the ESTs of a round have arrived, a bit that f + 1 honest nodes sent is accepted by every honest node that listens, if 2f + 1 honest nodes listen or have sent it |
| AgreementLiveness.SpreadsIff | honeybadgerbft/core/binaryagreement.py:99-133 | Without votes from Byzantine nodes it is accepted exactly under that condition |
| AgreementLiveness.SilencedRelays | honeybadgerbft/core/binaryagreement.py:99-145 | A run that shows the condition is needed: a vote that is no bit ends the receive greenlets of two of three honest nodes, and a value sent by f + 1 of them is accepted nowhere |
| AgreementLiveness.BinWaitEnds | honeybadgerbft/core/binaryagreement.py:192-201 | Once all honest nodes have entered a round and its ESTs have arrived, some bit is accepted by every honest node that listens |
| AgreementLiveness.AuxWaitEnds | honeybadgerbft/core/binaryagreement.py:213-233 | Once all honest nodes have voted AUX and the votes have arrived, the AUX wait can end |
| AgreementLiveness.ConfWaitEnds | honeybadgerbft/core/binaryagreement.py:43-59 | Once all honest nodes have confirmed and the CONFs have arrived, the CONF wait can end |
| AgreementLiveness.NeverStandsStill | honeybadgerbft/core/binaryagreement.py:185-288 | In every reachable state in which all honest nodes are in the loop and everything sent between them has arrived, the node furthest behind can move |
| AgreementLiveness.DeliveryCounts | honeybadgerbft/core/binaryagreement.py:92-166 | An honest vote not counted yet can be delivered to a listening node, which then counts it and goes on listening |
| AgreementLiveness.AlwaysUseful | honeybadgerbft/core/binaryagreement.py:92-288 | As long as all honest nodes are in the loop and listen, a main greenlet can move or an honest vote can be counted for the first time |
| AgreementSteps.DeliveryMeans | honeybadgerbft/core/binaryagreement.py:92-166 | What a delivery does: one vote more and no other; a malformed message, or a repeated AUX or CONF, ends the receive greenlet; a repeated EST changes nothing |
| AgreementSteps.InputMeans | honeybadgerbft/core/binaryagreement.py:176-194 | A bit starts round 0 with its EST; another input ends the main greenlet alone |
| AgreementSteps.OneAuxQuorum | honeybadgerbft/core/binaryagreement.py:220-227 | Two values never both have n - f AUX votes, so the order of the tests does not matter |
| AgreementSteps.AuxQuorumMeans | honeybadgerbft/core/binaryagreement.py:213-242 | The AUX wait gives v alone exactly when v is accepted with n - f votes, and both otherwise; the CONF sent lists exactly the accepted values |
| AgreementSteps.ConfQuorumMeans | honeybadgerbft/core/binaryagreement.py:37-59 | The CONF wait gives v alone exactly when v is accepted and n - f nodes confirmed it alone, and both otherwise |
| AgreementSteps.CoinMeans | honeybadgerbft/core/binaryagreement.py:266-310 | The coin in a reachable state: a single value equal to it is decided the first time and ends the node the second time; otherwise the next round is entered with that value, or with the coin, and its EST is sent |
| CoinedAgreement.QueueIsCommon | honeybadgerbft/core/commoncoin.py:24-123 | What an honest node finds in the queue of a round is the one coin of that round |
| CoinedAgreement.Refines | honeybadgerbft/core/binaryagreement.py:168-171 | Agreement nodes that take their coins from their own share collectors behave as the agreement with one common coin: every state of a run lies on one run of it |
| CoinedAgreement.Agreement | honeybadgerbft/core/binaryagreement.py:62-310 | Agreement over the threshold coin, with no assumption about the coin |
| CoinedAgreement.Validity | honeybadgerbft/core/binaryagreement.py:62-310 | Validity over the threshold coin |
| Quorums.QuorumsMeet | honeybadgerbft/core/reliablebroadcast.py:176-184 | Two sets of N - f nodes share an honest node when N >= 3f + 1 |
| Quorums.HonestMember | honeybadgerbft/core/reliablebroadcast.py:183-183 | f + 1 nodes include an honest one |
| Quorums.HonestPart | dpid/core/add.py:75-82 | Taking the Byzantine members out of a set of nodes costs at most f, so 2f + 1 matching senders include f + 1 honest ones |
| Merkle.CeilLog2 | honeybadgerbft/core/reliablebroadcast.py:94-94 | The least k with N <= 2^k |
| Merkle.MerkleTree | honeybadgerbft/core/reliablebroadcast.py:84-100 | The array filled from the leaves up holds the hash tree of the strings, with empty entries for the missing leaves |
| Merkle.RootIsBalanced | honeybadgerbft/core/reliablebroadcast.py:81-100 | The root is that of the balanced tree defined from the top, left half before right half, with blanks past the last leaf |
| Merkle.GetMerkleBranch | honeybadgerbft/core/reliablebroadcast.py:103-111 | The loop collects the siblings on the way from the leaf to the root |
| Merkle.MerkleVerify | honeybadgerbft/core/reliablebroadcast.py:114-131 | True exactly for a branch of the right length that climbs to the root; an assertion fails exactly for a bad index or length |
| Merkle.HonestBranchVerifies | honeybadgerbft/core/reliablebroadcast.py:84-131 | A branch taken from the tree always verifies |
| Merkle.RootBinds | honeybadgerbft/core/reliablebroadcast.py:114-131 | Two values accepted under one root at one index are the same value |
| Merkle.AcceptedIsLeaf | honeybadgerbft/core/reliablebroadcast.py:84-131 | A value accepted under the root of a tree is the leaf that was committed |
| Erasure.TakeStripes | honeybadgerbft/core/reliablebroadcast.py:49-60 | The loop takes the first K stripes present, or reports that there are too few |
| Erasure.EnoughStripes | honeybadgerbft/core/reliablebroadcast.py:52-60 | It takes K of them exactly when K are present |
| Erasure.DecodedBlocks | honeybadgerbft/core/reliablebroadcast.py:31-35 | The joined blocks begin with the message; what byte they end with |
| Erasure.RoundTripIff | honeybadgerbft/core/reliablebroadcast.py:13-66 | Any K stripes of encode(m) decode to m exactly when the pad length is recoverable from the last byte; a condition on len(m) % K alone |
| Erasure.RoundTrip | honeybadgerbft/core/reliablebroadcast.py:13-66 | decode after encode is the identity for K <= 128 |
| Erasure.OutputDependsOnRoot | honeybadgerbft/core/reliablebroadcast.py:224-232 | Any two sets of K verified stripes for one root give the same decode_output: the same message, or both fail the re-encoding check |
| Erasure.OutputOfHonestRoot | honeybadgerbft/core/reliablebroadcast.py:206-232 | Under the root of an encoded m, decode_output gives m exactly when its padding is recoverable |
| ReliableBroadcast.Node.Disperse | honeybadgerbft/core/reliablebroadcast.py:197-212 | The leader's VAL for node i holds the root, the branch and the stripe of i |
| ReliableBroadcast.Node.ReceiveVal | honeybadgerbft/core/reliablebroadcast.py:238-252 | The first VAL of the leader that verifies for this node is echoed; all others are ignored |
| ReliableBroadcast.Node.ReceiveEcho | honeybadgerbft/core/reliablebroadcast.py:254-277 | A verified ECHO of a new sender is stored and counted, READY is announced once at N - f echoes, and the output guard is tried |
| ReliableBroadcast.Node.ReceiveReady | honeybadgerbft/core/reliablebroadcast.py:279-296 | A READY of a new sender is counted, amplified once at f + 1, and the output guard is tried |
| BroadcastRuns.CountedEchoes | honeybadgerbft/core/reliablebroadcast.py:267-270 | The echo counter of a root never exceeds the nodes that may stand behind that root |
| BroadcastRuns.AmplifiedBacked | honeybadgerbft/core/reliablebroadcast.py:290-293 | f + 1 READYs for a root mean that a quorum of echoes stands behind it |
| BroadcastRuns.NextInv | honeybadgerbft/core/reliablebroadcast.py:234-296 | Every step keeps the invariant, whatever Byzantine nodes send |
| BroadcastRuns.RunInv | honeybadgerbft/core/reliablebroadcast.py:134-296 | The invariant holds in every state of every run |
| BroadcastTheorems.OneReadyRoot | honeybadgerbft/core/reliablebroadcast.py:272-293 | All honest READYs carry the same root |
| BroadcastTheorems.OutcomesStay | honeybadgerbft/core/reliablebroadcast.py:276-296 | What a node returned it keeps |
| BroadcastTheorems.Agreement | honeybadgerbft/core/reliablebroadcast.py:134-296 | Two honest nodes that leave the loop, whenever they do, return the same message, or both fail the re-encoding check |
| BroadcastTheorems.Validity | honeybadgerbft/core/reliablebroadcast.py:197-296 | With an honest leader every honest node that leaves the loop does so in the same, stated way: with the input exactly when its padding is recoverable, always for K <= 128, else with the other message that the blocks stand for, or in the failed check |
| BroadcastTheorems.HonestReadies | honeybadgerbft/core/reliablebroadcast.py:276-295 | A node at the output guard has f + 1 honest READYs for that root behind it |
| BroadcastTheorems.Totality | honeybadgerbft/core/reliablebroadcast.py:234-296 | Once all messages between honest nodes are delivered, if one honest node left the loop then all did, with the same result |
| BroadcastTheorems.HonestLeaderDelivers | honeybadgerbft/core/reliablebroadcast.py:197-296 | Once all messages between honest nodes are delivered, an honest leader's broadcast has ended at every honest node |
| CommonSubset.Node.ReceiveRbc | honeybadgerbft/core/commonsubset.py:27-34 | A delivered broadcast is stored and the agreement gets input 1 unless it has one |
| CommonSubset.Node.ReceiveAba | honeybadgerbft/core/commonsubset.py:38-48 | A decision is stored; at N - f ones every agreement without an input gets 0 |
| CommonSubset.Node.BroadcastRaised | honeybadgerbft/core/commonsubset.py:29-36 | A broadcast that raises ends its greenlet without a value |
| CommonSubset.Node.Conclude | honeybadgerbft/core/commonsubset.py:53-68 | After all decisions: the first assertion, then the joins in order, each of a greenlet that has ended with or without a value, the second assertion, and the returned tuple |
| SubsetNodes.CallOnce | honeybadgerbft/core/commonsubset.py:31-34 | Setting the flag with the call keeps every agreement's calls unique |
| SubsetNodes.RbcKeeps | honeybadgerbft/core/commonsubset.py:27-34 | A delivery keeps the node's invariant |
| SubsetNodes.AbaKeeps | honeybadgerbft/core/commonsubset.py:38-48 | A decision keeps it, including the sum of ones behind every input 0 |
| SubsetNodes.JoinIs | honeybadgerbft/core/commonsubset.py:59-65 | The joining loop fails only at an included broadcast that raised, and otherwise leaves exactly the included values |
| SubsetNodes.AllDoneKeeps | honeybadgerbft/core/commonsubset.py:53-68 | The conclusion keeps it |
| SubsetRuns.RunInv | honeybadgerbft/core/commonsubset.py:4-68 | Over N broadcasts and N agreements, each the machine above, all invariants hold in every state of every run |
| SubsetTheorems.SameBits | honeybadgerbft/core/commonsubset.py:40-40 | Honest nodes store the same bit for each agreement |
| SubsetTheorems.ZeroMeansEnough | honeybadgerbft/core/commonsubset.py:42-48 | A decision 0 means some honest node had N - f ones |
| SubsetTheorems.EnoughCommitted | honeybadgerbft/core/commonsubset.py:56-56 | When all decisions are in there are at least N - f ones |
| SubsetTheorems.IncludedNotRaised | honeybadgerbft/core/commonsubset.py:60-62 | A broadcast that was decided 1 has delivered to some honest node and so does not raise at any |
| SubsetTheorems.NeverFails | honeybadgerbft/core/commonsubset.py:53-62 | Neither assertion, on the number of ones and on the value of an included broadcast, ever fails in any run |
| SubsetTheorems.InputAtMostOnce | honeybadgerbft/core/commonsubset.py:31-47 | Each agreement gets at most one input from each node |
| SubsetTheorems.Agreement | honeybadgerbft/core/commonsubset.py:4-68 | All honest nodes that return, whenever they do, return the same tuple |
| SubsetTheorems.Inclusion | honeybadgerbft/core/commonsubset.py:56-68 | The tuple has at least N - f filled slots, each delivered to an honest node that then asked for its inclusion |
| SubsetTheorems.HonestSlot | honeybadgerbft/core/commonsubset.py:58-68 | What a filled slot of an honest proposer holds: the proposal exactly when its padding is recoverable, always for K <= 128 |
| SubsetLiveness.AbaDue | honeybadgerbft/core/commonsubset.py:38-49 | After a decision is taken with n - f ones, every agreement has its input flag set and its call made |
| SubsetLiveness.InputsComplete | honeybadgerbft/core/commonsubset.py:42-47 | In every run, a node with n - f ones has called aba_in for every agreement |
| SubsetLiveness.StoredAsked | honeybadgerbft/core/commonsubset.py:27-34 | In every run, a stored broadcast value has led to an input for its agreement, which is 1 unless n - f ones are in |
| SubsetLiveness.TakesAreStored | honeybadgerbft/core/commonsubset.py:29-40 | What a greenlet gets from its broadcast or agreement is stored in its slot and nowhere else |
| SubsetLiveness.Terminates | honeybadgerbft/core/commonsubset.py:19-68 | Once all messages between honest nodes are delivered, the agreements that got all honest inputs have decided, and no node can move, every honest node has returned its tuple |
| Dissemination.Node.ReceiveAddVal | dpid/core/add.py:33-50 | One value per sender; the value that first reaches f + 1 senders is sent as this node's share, once |
| Dissemination.Node.ReceiveReconst | dpid/core/add.py:53-84 | One share per sender; from 2f + 1 shares on, decode, re-encode, return at 2f + 1 matching hashes, give up at N |
| Dissemination.EnoughShares | dpid/core/add.py:75-82 | The loop over the shares stops early exactly when the matches reach the threshold |
| Dissemination.SharedStripesDetermine | dpid/core/add.py:71-82 | Messages whose encodings share K stripes are padded to the same blocks |
| Padding.PadSymbol | honeybadgerbft/core/reliablebroadcast.py:31-35 | Every symbol of the joined blocks: the message, then its pad character over and over, cut off at the block length |
| Padding.PaddingInjective | honeybadgerbft/core/reliablebroadcast.py:32-35 | For K <= 130, K = 193 and K = 194 two messages with the same blocks are the same message |
| Padding.PaddingCollides | honeybadgerbft/core/reliablebroadcast.py:32-35 | For every other K two different messages have the same blocks |
| Padding.PaddingInjectiveIff | honeybadgerbft/core/reliablebroadcast.py:32-35 | The padding is injective exactly for K <= 130, K = 193 and K = 194 |
| Padding.OutputIs | honeybadgerbft/core/reliablebroadcast.py:224-232 | Under the root of an encoded m: m if its padding is recoverable; another message with the same stripes for K = 196 and len(m) % K = 193, or an even K >= 198 and an m that ends in the padding of a shorter one; the failed check otherwise |
| Padding.HonestOutputIff | honeybadgerbft/core/reliablebroadcast.py:224-232 | That is m itself exactly when the padding is recoverable |
| DisseminationRuns.AddValKeeps | dpid/core/add.py:41-50 | f + 1 equal values include an honest one, so an honest RECONST carries the node's own stripe of the common message |
| DisseminationRuns.MatchesForce | dpid/core/add.py:75-82 | With K <= f + 1 the honest part of 2f + 1 matching hashes forces the decoded message to have the common message's stripes |
| DisseminationRuns.RunInv | dpid/core/add.py:31-84 | With K <= f + 1 the invariant holds in every state of every run |
| DisseminationRuns.Safety | dpid/core/add.py:4-85 | With N = 3f + 1 whatever an honest node returns, other than "Failed", has the stripes of the common message, and is the common message when the padding is injective, as it is for every N that zfec takes |
| DisseminationProgress.RunJudged | dpid/core/add.py:53-84 | In every reachable state the outcome is told by the shares recorded: from 2f + 1 on they have been decoded, encoded and compared, and a node still running has fewer than N |
| DisseminationProgress.FailedSawAll | dpid/core/add.py:83-84 | A node gives up only when the shares of all N nodes are recorded |
| DisseminationProgress.GenuineReturns | dpid/core/add.py:67-82 | With 2f + 1 genuine shares recorded, the K lowest-numbered recorded ones genuine and a recoverable padding, the node has returned the message, for every N |
| DisseminationProgress.HonestSharesReturn | dpid/core/add.py:53-82 | So it has when the shares of all honest nodes are recorded and no bad share is among the K lowest |
| DisseminationProgress.OneVoteEach | dpid/core/add.py:37-43 | One value of each sender is counted |
| DisseminationProgress.VotedShares | dpid/core/add.py:33-50 | A node that has heard from all honest nodes has sent its stripe of the common message to all |
| DisseminationProgress.DeliveryRecords | dpid/core/add.py:33-63 | A delivered vote is counted, a second share is never sent, a delivered share is recorded as it was sent |
| DisseminationLimits.NeverReturns | dpid/core/add.py:67-71 | With N > 4f + 1 the first decoding, at share 2f + 1, has fewer than K shares and raises: no honest node ever returns a message |
| DisseminationLimits.ReturnsOther | dpid/core/add.py:53-84 | With 3f + 1 < N <= 4f + 1 there is a run in which an honest node returns a message with other stripes |
| DisseminationLimits.SafeIff | dpid/core/add.py:4-85 | Every returned message has the stripes of the common one in all runs, for all codes, exactly when N = 3f + 1 or N > 4f + 1 |
| DisseminationLimits.ExactIff | dpid/core/add.py:4-85 | For the N up to 256 that zfec takes, the same N are those for which a returned message is always the common message itself |
| SystematicCode.SystematicIsCode | honeybadgerbft/core/reliablebroadcast.py:13-66 | There is a code as encode and decode ask for, of every size that zfec allows |
| Limbs.AddMul1 | pbc-0.5.14/arith/montfp.c:110-110 | In place on a window: window plus carry equals the old window plus u times s; the rest is untouched |
| Limbs.Mul1 | pbc-0.5.14/arith/montfp.c:340-340 | The window plus carry equals u times s |
| Limbs.Add1 | pbc-0.5.14/arith/montfp.c:112-112 | The window plus carry equals the old window plus c; the carry is at most 1 |
| Limbs.SubN | pbc-0.5.14/arith/montfp.c:115-115 | The limb difference, with a borrow out that wraps at the radix |
| Limbs.AtLeast | pbc-0.5.14/arith/montfp.c:114-114 | The comparison from the top limb down decides the order of the values |
| Limbs.ToLimbsVal | pbc-0.5.14/arith/montfp.c:44-49 | The limbs of a number that fits have its value |
| Montgomery.NegInverse | pbc-0.5.14/arith/montfp.c:588-595 | The negated low limb of the inverse modulo R clears the low limb: negpinv * p + 1 = 0 modulo the limb base |
| Montgomery.RadixFacts | pbc-0.5.14/arith/montfp.c:567-583 | The modulus fills its top limb: B^(t-1) <= p < R = B^t |
| MontgomeryLimbs.AddRow | pbc-0.5.14/arith/montfp.c:343-348 | One row on the array moves the window up one limb and computes the row function, wrap-around included |
| MontgomeryLimbs.MontMulInto | pbc-0.5.14/arith/montfp.c:333-362 | mont_mul on limb arrays, output possibly an operand, computes the value-level function |
| MontgomeryTheorems.RowStep | pbc-0.5.14/arith/montfp.c:344-347 | A row divides exactly by the base, keeps the running value below p + b, and loses at most one carry |
| MontgomeryTheorems.RowsTelescope | pbc-0.5.14/arith/montfp.c:339-348 | All rows together: B^t times the result plus the lost carries equals a * b plus a multiple of p |
| MontgomeryTheorems.MontMulCorrectIff | pbc-0.5.14/arith/montfp.c:333-362 | For b < p the result is below p, and c * R = a * b modulo p holds exactly when no carry was lost |
| MontgomeryTheorems.RoomForCarries | pbc-0.5.14/arith/montfp.c:345-347 | No carry is lost when p + B * b <= B * R |
| MontgomeryTheorems.TopLimbLeavesRoom | pbc-0.5.14/arith/montfp.c:345-347 | That is so whenever the top limb of p is not all ones |
| MontgomeryTheorems.NothingLostIff | pbc-0.5.14/arith/montfp.c:339-348 | Nothing is lost exactly when for every row i the product of b with the first i + 1 limbs of a, plus the multiple of p that clears the first i limbs, stays below B ^ (i + 1) * R: a condition on the operands alone |
| MontgomeryTheorems.MontMulRightIff | pbc-0.5.14/arith/montfp.c:333-362 | So c * R = a * b modulo p holds exactly under that condition, which can be evaluated before the call |
| MontgomeryTheorems.MontMulCorrect | pbc-0.5.14/arith/montfp.c:333-362 | For one limb, or a top limb of p other than all ones, c * R = a * b modulo p always |
| MontgomeryTheorems.CarryIsLost | pbc-0.5.14/arith/montfp.c:345-345 | For p = 2^128 - 159 in 64-bit limbs and a = b = p - 1 a carry is lost and the product is wrong |
| MontgomeryElements.AddMulThrough | pbc-0.5.14/arith/montfp.c:110-112 | Adding u * p at limb i and carrying through all limbs above |
| MontgomeryElements.ReduceLimb | pbc-0.5.14/arith/montfp.c:108-113 | Limb i becomes 0 and the total grows by a multiple of p |
| MontgomeryElements.MontReduce | pbc-0.5.14/arith/montfp.c:104-120 | x * R = y modulo p, and x < p for y < p * R |
| MontgomeryElements.ProductRepresented | pbc-0.5.14/arith/montfp.c:364-375 | The product of two representations represents the product and is not 0 |
| MontgomeryElements.Element.constructor | pbc-0.5.14/arith/montfp.c:51-56 | A new element represents 0 |
| MontgomeryElements.Element.SetMpz | pbc-0.5.14/arith/montfp.c:64-80 | The element represents z; the zero flag is set exactly when p divides z |
| MontgomeryElements.Element.Mul | pbc-0.5.14/arith/montfp.c:364-375 | The element represents the product, also in place, exactly when an operand is zero or no carry is lost |
| MontgomeryElements.Element.ToMpz | pbc-0.5.14/arith/montfp.c:122-138 | The limbs of the represented residue, without leading zero limbs |
| MontgomeryElements.TopLimbNoneLost | pbc-0.5.14/arith/montfp.c:333-362 | No carry is lost for any operands when p has one limb or a top limb other than all ones |
| MontgomeryElements.MultiplyMod | pbc-0.5.14/arith/montfp.c:64-138 | set, mul, to_mpz is multiplication modulo p when the multiplication loses no carry |
| Words.WindowOfNumber | pairing/src/lib.rs:3043-3060 | The shifted, or-ed and masked words are bits offset..offset+w of the 256-bit number |
| SignedDigits.NextDigit | pairing/src/lib.rs:3041-3064 | The recentred digit is in [-2^(w-1), 2^(w-1)), fits i8, and differs from window plus carry by the next carry times 2^w |
| SignedDigits.FillDigits | pairing/src/lib.rs:3038-3065 | The digits so far and the carry sum to the low part of the scalar; for w < 8 the last carry is 0 |
| SignedDigits.ToRadix2w | pairing/src/lib.rs:3022-3081 | For w = 6, 7, 8 the digits sum to the 256-bit scalar and every digit is centred |
| Pippenger.FillBuckets | pairing/src/lib.rs:2945-2965 | The buckets, bucket i weighted by i + 1, add up to the column's combination of the points |
| Pippenger.SumBuckets | pairing/src/lib.rs:2975-2982 | The two running sums weight bucket i by i + 1 |
| Pippenger.MulByPow2 | pairing/src/lib.rs:2992-3002 | k doublings multiply by 2^k |
| Pippenger.FoldColumns | pairing/src/lib.rs:2943-2989 | The fold over the columns from the top is the combination by the numbers the digits stand for |
| Pippenger.MultiScalarMul | pairing/src/lib.rs:2910-2990 | The sum of scalar_i * point_i over the shorter of the two lists |
| WindowNaf.RestSmaller | pairing/src/wnaf.rs:21-42 | Every pass makes c smaller, so the loop ends |
| WindowNaf.FormDigits | pairing/src/wnaf.rs:18-43 | Every digit is 0 or odd with absolute value below 2^window |
| WindowNaf.FormSparse | pairing/src/wnaf.rs:18-43 | Two non-zero digits are more than window places apart |
| WindowNaf.OverflowIff | pairing/src/wnaf.rs:33-33 | The signed adjustment overflows exactly for an odd c within 2^window of the limit |
| WindowNaf.FormSumIff | pairing/src/wnaf.rs:18-43 | The digits sum back to c exactly when the first adjustment does not overflow |
| WindowNaf.OverflowForm | pairing/src/wnaf.rs:33-33 | With the overflow they sum to c less the limit |
| WindowNaf.WnafForm | pairing/src/wnaf.rs:18-43 | The loop computes the form, for window 1 to 61 |
| WindowNaf.WnafTable | pairing/src/wnaf.rs:4-15 | Entry i is (2i + 1) times the base |
| WindowNaf.WnafExp | pairing/src/wnaf.rs:49-71 | The signed digits' value times the base |
| WindowNaf.WnafMultiply | pairing/src/wnaf.rs:109-179 | Table, form and exponentiation give scalar * base, or (scalar - limit) * base exactly when the first adjustment overflows |
| Groups.CombineLinear | pairing/src/lib.rs:2989-2989 | One Horner step on whole combinations of points |
| Polynomials.DivRem | ntl/rsdecode_impl.h:304-304 | Long division: dividend = quotient * divisor + remainder at every point, remainder of smaller degree |
| Polynomials.FromRootsVanishes | ntl/rsdecode_impl.h:327-329 | The product of the x - x_i vanishes exactly at the x_i |
| Polynomials.InterpolateValues | ntl/rsdecode_impl.h:331-333 | The interpolant takes every y_i |
| Polynomials.RootBound | ntl/rsdecode_impl.h:355-355 | A non-zero polynomial over a prime field has at most degree many roots |
| Polynomials.AgreeEqual | ntl/rsdecode_impl.h:331-333 | Two polynomials of degree below the number of points where they agree are equal |
| ReedSolomon.PartialGcd | ntl/rsdecode_impl.h:280-322 | r = u * p0 + v * p1 at every point, deg r below the threshold, deg v at most deg p0 minus the threshold; it ends |
| ReedSolomon.KeyEquation | ntl/rsdecode_impl.h:335-337 | v(x_i) * y_i = g(x_i) at every received point |
| ReedSolomon.QuotientIsRight | ntl/rsdecode_impl.h:339-348 | An exact quotient agrees with y_i wherever v does not vanish |
| ReedSolomon.ErrorsSound | ntl/rsdecode_impl.h:324-362 | The listed errors are distinct points of disagreement |
| ReedSolomon.ErrorsComplete | ntl/rsdecode_impl.h:324-362 | Every point of disagreement is listed |
| ReedSolomon.ErrorsBounded | ntl/rsdecode_impl.h:355-359 | There are at most deg v errors |
| ReedSolomon.RemainderIsProduct | ntl/rsdecode_impl.h:335-337 | For every polynomial in the decoding radius the remainder of the partial gcd is its product with v |
| ReedSolomon.GaoInterpolate | ntl/rsdecode_impl.h:324-362 | True is returned exactly when a polynomial in the radius exists, and then with that polynomial: at most k coefficients and (n - k) / 2 errors, or, for odd n - k, fewer than k coefficients and one error more; the result agrees with y wherever v is not 0, with at most deg v <= n - (n + k) / 2 errors; the division by v = 0 is reached exactly for k > n + 1 |
| Fourier.SetVmMatrix | ntl/rsdecode_impl.h:22-35 | Row i holds the powers of x_i |
| Fourier.VandermondeMatrix | ntl/rsdecode_impl.h:37-49 | Entry (i, j) is omega^(i * j) |
| Fourier.VandermondeCache.Get | ntl/rsdecode_impl.h:51-64 | What the cache returns is the matrix for this modulus, omega and n, new or stored |
| Fourier.MatVec | ntl/rsdecode_impl.h:132-135 | The matrix product is the transform |
| Fourier.Butterfly | ntl/rsdecode_impl.h:158-167 | e + w * o and e - w * o are the transform at k and k + n / 2 when omega^(n/2) = -1 |
| Fourier.BaseCaseBelow | ntl/rsdecode_impl.h:146-150 | The halved problem with omega squared meets the same cutover matrix |
| Fourier.FftInPlace | ntl/rsdecode_impl.h:124-168 | Every index below the truncation bound holds the naive transform of what the array held |
| Fourier.Fft | ntl/rsdecode_impl.h:170-191 | The result is the sum of c_j * omega^(i * j) at every index, with padding, truncation and the size-16 cutover |
| ThresholdKeys.PolynomEval | crypto/threshsig/boldyreva.py:70-77 | The loop evaluates the polynomial in Z_p |
| ThresholdKeys.LagrangeDefined | crypto/threshsig/boldyreva.py:105-118 | The denominator is not 0 for distinct players below l <= p |
| ThresholdKeys.LagrangeOrder | crypto/threshsig/boldyreva.py:111-118 | The coefficient does not depend on the order of the players |
| ThresholdKeys.Reconstruct | crypto/threshsig/boldyreva.py:206-210 | The weighted sum of f(j + 1) over any k players is f(0), for deg f < k |
| CommonCoin.CombineIsMaster | crypto/threshsig/boldyreva.py:140-149 | Any k genuine shares combine to the signature under the master secret |
| CoinNodes.CoinNode.Receive | honeybadgerbft/core/commoncoin.py:44-114 | One pass of the receive loop updates dictionaries and queues as specified |
| CoinNodes.CoinNode.OwnShare | honeybadgerbft/core/commoncoin.py:128-145 | The share a node broadcasts verifies under its key |
| CoinNodes.StepInv | honeybadgerbft/core/commoncoin.py:44-114 | A message keeps the invariant: kept shares genuine, the queue holding the coin once exactly from the threshold on, the verification of the combined signature never failing |
| CoinNodes.CoinIsCommon | honeybadgerbft/core/commoncoin.py:24-123 | At most one output per round, and any two honest outputs are equal, whatever each node received in whatever order |
| CoinNodes.CoinAvailableIff | honeybadgerbft/core/commoncoin.py:78-114 | A node has the coin of a round exactly when valid shares of k players have arrived |
| CoinNodes.OutputsAreCoins | honeybadgerbft/core/commoncoin.py:44-114 | Whatever arrives, a queue never holds anything but the coin, once; and a round at the threshold has its coin or the loop has ended |
| CoinNodes.ListensIff | honeybadgerbft/core/commoncoin.py:44-83 | With own shares authentic the loop runs exactly as long as all senders are players |
| Products.ProductOrder | crypto/threshsig/boldyreva.py:115-116 | A product does not depend on the order of its factors |
| Products.Fermat | pbc-0.5.14/arith/field.c:686-690 | a^(p-1) = 1 modulo a prime p for a not 0 |
| SquareRoots.BuildPowWindow | pbc-0.5.14/arith/field.c:30-51 | Entry s of the table is a^s |
| SquareRoots.PowWind | pbc-0.5.14/arith/field.c:67-111 | The sliding window computes a^n for every n and every window k >= 1 |
| SquareRoots.Pow | pbc-0.5.14/arith/field.c:113-126 | So does the routine that picks the window from the size of n |
| SquareRoots.RootsOfOne | pbc-0.5.14/arith/field.c:698-698 | 1 and -1 are the only square roots of 1 |
| SquareRoots.TonelliStep | pbc-0.5.14/arith/field.c:692-699 | A pass halves the exponent at which (nqr^-e * a) is 1 |
| SquareRoots.SplitOdd | pbc-0.5.14/arith/field.c:687-690 | n = 2^s * t with t odd |
| SquareRoots.Tonelli | pbc-0.5.14/arith/field.c:669-718 | The result squares to a exactly when a is a square |
| VectorCommitment.SGen | vc.py:33-43 | S[i] is a raised in turn to every exponent but the i-th |
| VectorCommitment.FastGen | vc.py:45-72 | The divide-and-conquer generation computes the same S, for every non-empty list; the empty one never ends |
| VectorCommitment.SameS | vc.py:33-72 | That specification has one solution, so fast_gen equals s_gen |
| VectorCommitment.Commit | vc.py:75-79 | The product of S[i] ^ messages[i] |
| VectorCommitment.CommitIsPower | vc.py:75-79 | It is a to the sum of messages[i] times the product of the other exponents |
| VectorCommitment.RemoveFirst | vc.py:103-103 | list.remove takes out the first occurrence |
| VectorCommitment.Open | vc.py:100-114 | What open computes on every list of at least two, and that one message does not end; it is the value of slow_open if all entries from the first one equal to e[i] up to i are equal, as with distinct exponents. `Openings` has the exact condition |
| VectorCommitment.SameListIff | vc.py:102-104 | Exactly then the exponent list after the removal is the intended one |
| VectorCommitment.RepeatedExponent | vc.py:100-114 | With exponents 3, 5, 3 open differs from slow_open: an input for the failing half of `Openings.OpenRightIff` |
| VectorCommitment.SlowOpen | vc.py:81-95 | The quadratic opening computes the commitment to the other entries without the i-th exponent |
| VectorCommitment.Completeness | vc.py:23-95 | verify accepts the opening that slow_open computes, for every entry of a commitment |
| Openings.AlwaysRightIff | vc.py:81-114 | For all exponents, also repeated or zero ones: open gives the value of slow_open for all messages, bases and moduli exactly when leaving out any one of the remaining exponents leaves the product that it leaves of the intended ones |
| Openings.VerifyExactly | vc.py:23-31 | For an honest commitment, which pairs of a message and a proof verify accepts at entry i, right or wrong: those with proof ^ e[i] * S[i] ^ m equal to the same product for the committed message and the opening of slow_open |
| Openings.AcceptedProofs | vc.py:23-31 | When the base is a unit modulo n, the proofs accepted for the committed message are exactly those whose e[i]-th power is that of the opening of slow_open |
| Openings.AlwaysAcceptedIff | vc.py:23-114 | For all exponents: verify always accepts what open computes exactly when open is always right or e[i] is 0; otherwise some honest commitment has its opening rejected |
| Openings.OpenRightIff | vc.py:23-114 | With positive exponents, open is always right, and always accepted, exactly when all entries from the first one equal to e[i] up to i are equal |
| Serializer.LenToBytes | dpss/core/serializer.py:113-121 | The loop computes the length code |
| Serializer.BytesToLen | dpss/core/serializer.py:124-130 | The loop reads the length code, or runs off the text |
| Serializer.LenRoundTrip | dpss/core/serializer.py:113-130 | The length code delimits itself: reading stops at its end with the length written, whatever follows |
| Serializer.SerializeItem | dpss/core/serializer.py:83-96 | The dispatch computes the printed form |
| Serializer.SerializeIter | dpss/core/serializer.py:99-110 | The loop over the entries computes the printed form of lists and tuples |
| Serializer.DeserializeItem | dpss/core/serializer.py:36-57 | The dispatch parses one item or fails |
| Serializer.DeserializeIter | dpss/core/serializer.py:60-75 | The loop parses entries up to an end tag or fails |
| Serializer.WireFormat | dpss/core/serializer.py:6-20 | The printed bytes of every item, with literal tags: lists 1 and 2, tuples 3 and 4, byte strings 9, other dumps 0x99, the elements 5 to 8 with 48, 32, 32 and 32 bytes, and a length as n / 255 bytes 255 and the remainder |
| Serializer.FirstByteDecides | dpss/core/serializer.py:36-75 | What parses starts with the byte of its kind: 1 a list, 3 a tuple, 9 a byte string, 0x99 a dump, 5 to 8 an element with its state taken from the text |
| Serializer.RoundTrip | dpss/core/serializer.py:36-110 | Parsing the printed form of any nested item followed by any text returns the item and stops exactly at its end |
| Serializer.PrefixFree | dpss/core/serializer.py:83-110 | No printed form is a proper beginning of another: two texts that start alike hold the same item and the same remainder |
| Serializer.ParsedWasPrintedIff | dpss/core/serializer.py:36-75 | Whatever parses gives an item that can be printed, and the text that was read is the printed form of that item exactly when every list and tuple is closed by its own end tag and no sized piece runs past the end of the text, neither of which the parser checks |

## Left out

- DisseminationRuns.MatchesForce: only for K <= f + 1, that is N = 3f + 1, since beyond it the honest ones among 2f + 1 shares can be fewer than K; `DisseminationLimits` has the other N.
- MontgomeryElements.MultiplyMod: says nothing about a product that loses a carry, beyond `MontgomeryElements.Element.Mul`, by which the element then stands for something else; `MontgomeryTheorems.CarryIsLost` is such a product.
- WindowNaf.WnafForm: window at most 61, so that the 64-bit shifts in the source do not overflow.
- CoinedAgreement.Agreement: the selection from the signature gives a bit, as the agreement's docstring asks; the strings of the coin in the repository are not accepted by the agreement.
- SquareRoots.Tonelli: the field is Z_q for an odd prime q, with the non-residue given; how `field_get_nqr` finds one is not modelled.
- SquareRoots.Pow: the powers of general PBC fields other than Z_q.
- Probability: that the coin meets a CONF result sooner or later, so that the agreement ends, unpredictability of the coin, expected rounds. What is proved about progress is per run: no round of the agreement stands still while all honest nodes are in the loop and listen, who decides and when; totality and an honest leader's delivery once all honest messages are delivered; the end of the common subset once its agreements have ended; when a coin is available.
- Progress of the agreement after an honest node has left the loop, or has lost its receive greenlet to a repeated or malformed message: `AgreementLiveness.SilencedRelays` shows that too many of these can stop a round.
- Scheduling: a stretch of code between two waits of a greenlet is one atomic step; transport, sockets, logging and the launchers are not modelled.
- The exceptions raised by a redundant AUX or CONF, or by a failed assertion, are modelled as the end of the receive greenlet; what gevent prints is not.
- The floating-point `math.log(N, 2)` in the Merkle functions is modelled as the exact ceiling of the logarithm.
- Acceptance of both `str` and `bytes`: all texts are bytes.
- Sender identities in ADD are taken from the message in the source; the model assumes that they are authentic.
- Malformed messages that fail to unpack, and signatures that fail to deserialize.
- The pairing equations of share and signature verification are modelled by what they decide, equality with the signature under the matching key; key generation and the cryptographic hardness are not modelled.
- `Queue(1)` blocking in the coin: the queue is the list of everything put into it, which never exceeds one entry.
- NTL, GMP and zfec internals: polynomial products, long division and interpolation are modelled by schoolbook versions with the same results; `mpz_invert` and `mpz_mod` by their contracts.
- `gao_interpolate_fft`, `fnt_decode`, `vandermonde_inverse` and the Python-facing conversions of the decoder.
- `fp_invert`, `fp_add`, `fp_sub`, R3 and the byte conversions of montfp.c.
- Projective coordinates: subtraction of a point is addition of its negative in an abstract group.
- Pickle, and the byte form of group elements: an element is represented by its state and any other object by its dump.
- `keygen` and the primality of RSA moduli: the vector commitment is proved for every modulus and base.
- The other broadcast and agreement variants (`broadcast/`, `dpid/core/refresh*.py`, `rbc_vc.py`), `pedersen.py` and the wrappers of `pairing/src/lib.rs` would add mostly repetitions of what is here.
