# DecoyAuth in Dafny

A model of DecoyAuth, a password-authenticated key exchange in which an access point (AP) supports many keys at once,
and of the wlantest frame analyser that ships with it, together with proofs about the model.

The AP hashes every key to a curve point, forms one Dragonfly commit element per key, encodes each element as two field
elements (Elligator Squared), and interpolates the encodings over the hashed passwords. The client evaluates the
interpolation at its own password hash, decodes the element of its own key, and both sides derive the same session.
wlantest follows pairwise keys and replay counters of the stations it observes and opens TKIP frames.

| file | contents |
|---|---|
| `ModArith.dfy`, `Primes.dfy`, `Polynomials.dfy` | congruences by certificates; Euclid's lemma, inverses, Fermat; Horner values, division by X - r, root counting |
| `Residues.dfy`, `ModularSqrt.dfy` | Legendre symbol, Euler's criterion; the closed-form square root and Tonelli-Shanks |
| `Weaver.dfy` | precompute, weave, evaluate |
| `Curves.dfy`, `Elligator.dfy`, `Inversion.dfy`, `Encode.dfy` | curves and groups; the map f; calc_v; encoding and decoding, as in the Python code |
| `EncodeC.dfy`, `Exceptional.dfy`, `TinyCurve.dfy` | the C version of the encoder where it differs; which curves have exceptional points; a seven-element field on which both kinds occur |
| `WovenC.dfy` | the whole C path from encoding over weaving to decoding |
| `Swu.dfy`, `Dragonfly.dfy`, `Handshake.dfy` | hashing to the curve, the commit exchange, the whole handshake |
| `Rc4.dfy`, `Michael.dfy`, `TkipMixing.dfy`, `Tkip.dfy` | the TKIP cipher suite |
| `TkipRuns.dfy`, `TkipInputs.dfy` | runs of received fragments; inputs on which their handling is surprising |
| `TkipVectors.dfy` | the S-box table and published known answers |
| `KeyState.dfy`, `KeyLaws.dfy` | PTK and TPTK transitions, addresses and replay counters; what frames bring about over whole runs |

Conventions. Residues are plain integers; `Cong(p, x, y)` says that p divides x - y, and `Divides(p, e)` that e is 0
modulo p. Dafny's `%` is Euclidean, which is Python's `%` and OpenSSL's `BN_mod_*` for a positive modulus. Random draws,
hash outputs, MIC verdicts and decryption verdicts are inputs. Exceptions of the Python code are `Err` values; `None`
stands for Python's `None` and C's `NULL`.

Hypotheses. They are stated as predicates and hold on P-256, which the handshake uses, but are not proved of its
constants. The modulus is an odd prime, a and b are not 0 modulo it and the cubic has no root, that is, no point has
order two (`Curve.Valid`). The encoder needs p == 3 mod 4 (`EncodingCurve`), which excludes P-224. Hashing to the curve
needs z to be a non-residue and g(b/(z*a)) to be a square (`SwuCurve`). Point addition is delegated to libraries by the
source, so it enters through the abelian-group laws (`IsGroup`) and the order of the group (`HasOrder`). A frame
given to `tkip_encrypt` and a header given to `tkip_decrypt` contain the bytes that their own control bits make the code
read (`ReadLength`). wlantest keeps one record per BSS (`OneRecord`).

Where the code and its documentation part:

- The comment above `f` in `scripts/encode.py` says that 0, 1 and -1 map to infinity. The guard joins the three
  comparisons with `and`, so it never holds and these inputs raise instead (`Elligator.FMeaning`).
- `calc_v` in `scripts/encode.py` misses every preimage of a point with omega == 4 when 2 is a residue, because
  `modular_sqrt(0)` is `None`. `Inversion.CompleteIff` gives the exact condition for a point,
  `Exceptional.CompleteEverywhereIff` for a curve, `TinyCurve.MissedPreimage` an input.
- `calc_v` in `c-prototype/src/encode.c` returns 0 or p for a point with omega == 0, which no residue is mapped to. The
  value p is not caught by the guard of `f`, and `f(p)` is that point or its negative. So a direct decode
  (`EncodeC.RoundTripIff`) succeeds in more cases than one through the weaver, which reduces p to 0
  (`EncodeC.WovenRoundTripIff`, `WovenC.TransferAll`). `Exceptional.AllDecodeIff` gives the exact condition on the curve,
  `TinyCurve.SpuriousPreimage` and `TinyCurve.ModulusAsPreimage` inputs.
- On P-256 both -a*b and a*b*(4a^3 + 27b^2) are non-residues, so that curve has no point with omega == 0 or 4 and is not
  affected by either. This is arithmetic on its constants and not part of the proofs.
- `precompute` in `c-prototype/src/weaver.c` does not notice a failed inversion. Exact condition:
  `Weaver.PrecomputeUnchecked`; input: `Weaver.ClashingNodes`.
- `tkip_decrypt` subtracts 8 from the length of the last fragment even if the MIC began in an earlier one. Exact condition:
  `TkipRuns.LengthIff`; input: `TkipInputs.SplitMic`.
- `tkip_decrypt` keeps the buffer after an MSDU is complete, so that a further fragment with the next number is appended
  and checked. Exact condition: `TkipRuns.AnnouncedIff`; input: `TkipInputs.CompletedTwice`.
- `tkip_decrypt` without a place for the Michael result checks a lone fragment by itself, although its comment says that
  the MIC is then not checked. Exact condition: `TkipRuns.CheckedAlone`; input: `TkipInputs.LoneFragment`.
- `mgmt_decrypt` notes a replayed management frame and overwrites the counter all the same. Exact condition:
  `KeyState.LoweredIff` and `KeyState.MgmtCounterIff`; input: `KeyState.MgmtCounterFalls`.

## Model

| member | source | states |
|---|---|---|
| Residues.InvertMod | scripts/util.py:23-24 | a value is returned exactly for arguments that are not multiples of p, lies in 1..p-1 and inverts the argument |
| Residues.LegendreMeaning | scripts/util.py:26-30 | the symbol is 0, 1 or -1 exactly when a is 0, has half power 1, has half power -1 modulo p |
| Residues.EulerCriterion | scripts/util.py:26-33 | is_quadratic_residue holds exactly for the nonzero squares |
| Residues.NonResidueExists | scripts/util.py:46-48 | some number in 2..p-1 has symbol -1, so the search ends |
| Residues.LegendreProduct | scripts/util.py:26-30 | the symbol is multiplicative on all integers |
| Residues.LegendreNegative | scripts/util.py:26-30 | for p == 3 mod 4 negation flips the symbol, so the sign given to y records the branch of f |
| Primes.Fermat | scripts/decoyauth.py:15-16 | x^(p-1) is 1, which makes the p-2 powers inverses |
| ModularSqrt.PrincipalSqrtMeaning | scripts/util.py:35-41 | for p == 3 mod 4 the result exists exactly for nonzero squares and is the one root in 1..p-1 that is itself a residue |
| ModularSqrt.OddPart | scripts/util.py:42-45 | p - 1 is split as s * 2^e with s odd |
| ModularSqrt.FindNonResidue | scripts/util.py:46-48 | the search ends, and at the least n >= 2 with symbol -1 |
| ModularSqrt.InvariantInit | scripts/util.py:49-52 | x*x == a*b, g^(2^(r-1)) == -1 and b^(2^(r-1)) == 1 hold on entry |
| ModularSqrt.Order2 | scripts/util.py:54-59 | the inner loop breaks at the least m with b^(2^m) == 1, and m < r |
| ModularSqrt.InvariantStep | scripts/util.py:62-66 | one round keeps the three congruences with r replaced by the smaller m |
| ModularSqrt.TonelliShanks | scripts/util.py:42-66 | the loop ends and returns a root of a, for every odd prime and every residue a |
| ModularSqrt.ModSqrt | scripts/util.py:35-66 | for every odd prime, a root is returned exactly when a is a nonzero square; for p == 3 mod 4 it is the closed form |
| Polynomials.DivisionIdentity | scripts/weaver.py:25-27 | the partial Horner values are the exact quotient by X - r: s(x) - s(r) == (x - r) * q(x) |
| Polynomials.TimesLinearValue | scripts/weaver.py:10-14 | multiplying the coefficients by X - t multiplies the value by x - t, and changes the slope by the product rule |
| Polynomials.SlopeAtRoot | scripts/weaver.py:16-20 | the slope of the node polynomial at a node is the product of the differences to the other nodes |
| Polynomials.RootCount | scripts/weaver.py:3-31 | n coefficients with n roots distinct modulo a prime all vanish |
| Polynomials.Uniqueness | scripts/weaver.py:33-48 | n coefficients are determined modulo p by their values at n distinct nodes |
| Weaver.AddNode | scripts/weaver.py:11-14 | the descending in-place update leaves at each place its old value minus x times its old left neighbour, and nothing beyond |
| Weaver.MasterStep | scripts/weaver.py:10-14 | that update turns the coefficients of the product over some nodes into those with one more node |
| Weaver.ExpandProduct | scripts/weaver.py:6-14 | a holds the coefficients of the product of X - xs[k], for all nodes |
| Weaver.ExpandProductSigned | c-prototype/src/weaver.c:9-32 | the same, although the first coefficient may be negative |
| Weaver.NodeProducts | scripts/weaver.py:16-20 | p[i] is the product of the differences of node i to the others |
| Weaver.AddNodes | scripts/weaver.py:10-14 | the outer loop keeps the product polynomial while it takes in the remaining nodes |
| Weaver.NodeClash | scripts/weaver.py:16-29 | p[i] is 0 modulo p exactly when another node agrees with node i |
| Weaver.DivideNode | scripts/weaver.py:25-27 | b is the quotient of the node polynomial by X - x |
| Weaver.FillColumn | scripts/weaver.py:28-29 | column i becomes b from the right, scaled; other columns stay |
| Weaver.BasisColumn | scripts/weaver.py:24-29 | the polynomial of a column is 1 at its own node and 0 at the others, if no other node agrees with its own |
| Weaver.Precompute | scripts/weaver.py:3-31 | fails exactly for fewer than two nodes or nodes that agree modulo p; otherwise every column interpolates its unit vector |
| Weaver.PrecomputeUnchecked | c-prototype/src/weaver.c:3-103 | for any nodes: one that agrees with another gets a zero column, every other column interpolates its unit vector; so the result interpolates if and only if the nodes are distinct modulo p |
| Weaver.InterpolationNeedsDistinct | c-prototype/src/weaver.c:67-92 | no matrix at all interpolates over nodes that agree modulo p |
| Weaver.ClashingNodes | c-prototype/src/weaver.c:3-103 | for the nodes 1 and 1 no returned matrix interpolates |
| Weaver.Weave | scripts/weaver.py:33-42 | the matrix-vector product modulo p, reduced |
| Weaver.WeaveStepwise | c-prototype/src/weaver.c:105-132 | the C order of reductions gives the same reduced product |
| Weaver.EvalWeave | scripts/weaver.py:44-48 | Horner's loop gives the polynomial's value, reduced only at the end or not at all |
| Weaver.EvaluateStepwise | c-prototype/src/weaver.c:134-146 | the step-reduced loop gives the same residue, and a reduced one unless the list is a single unreduced coefficient |
| Weaver.Interpolation | scripts/weaver.py:33-48 | evaluating the woven coefficients at node k gives ys[k], for all nodes and values |
| Weaver.ClashingValue | c-prototype/src/weaver.c:67-146 | weaving over clashing nodes: a clashing node reads back 0, every other node its value |
| Weaver.WovenIsUnique | scripts/weaver.py:33-42 | a reduced list of n coefficients passes through all points if and only if it is the woven one |
| Weaver.OrderIsHidden | scripts/weaver.py:33-42 | listing passwords and values together in another order gives the same coefficients |
| Weaver.VandermondeInverse | c-prototype/src/weaver.c:51-88 | the matrix is a two-sided inverse of the Vandermonde matrix of the nodes |
| Curves.CubicScales | scripts/decoyauth.py:17-19 | g(w*x) == w^3 * g(x) for the abscissas both maps construct |
| Elligator.X0Meaning | scripts/encode.py:25-27 | X_0(u) exists exactly for u other than 0, 1, -1 and solves a*x*d == -b*(d+1) with d = u^4 - u^2 |
| Elligator.X1Meaning | scripts/encode.py:29-30 | X_1(u) == -u^2 * X_0(u) and g(X_1(u)) == -u^6 * g(X_0(u)) |
| Elligator.ExactlyOneSquare | scripts/encode.py:38-51 | exactly one of g(X_0(u)) and g(X_1(u)) is a square |
| Elligator.FMeaning | scripts/encode.py:32-51 | f succeeds exactly on regular u, never fails its assertion, lands on the curve, and the symbol of y tells the branch |
| Elligator.FEven | scripts/encode.py:32-51 | f(u) == f(-u), also across multiples of p |
| Elligator.OmegaMeaning | scripts/encode.py:53-55 | b*omega == a*x + b |
| Elligator.Preimages | scripts/encode.py:53-74 | f(v) == q holds exactly when v^2 solves the quadratic of the branch that y selects |
| Inversion.PreimageTurns | scripts/encode.py:58-69 | for omega != 0, f(v) == q if and only if the turned v^2 is a root of the discriminant |
| Inversion.ZeroDiscriminant | scripts/encode.py:58 | the discriminant vanishes exactly for omega == 0 and omega == 4 |
| Inversion.NothingFound | scripts/encode.py:58-60 | in that case calc_v finds nothing, for every j |
| Inversion.CalcVMeaning | scripts/encode.py:53-74 | calc_v(q, j) == v exactly when f(v) == q, the discriminant is not 0, and j names the symbols of v and of its root of the discriminant |
| Inversion.Enumeration | scripts/encode.py:53-74 | with a nonzero discriminant the results for j = 0..3 are precisely the preimages in 0..p-1, each from exactly one j |
| Inversion.CompleteIff | scripts/encode.py:53-60 | every preimage is found if and only if not (omega == 4 and 2 is a residue) |
| Encode.EncodeMeaning | scripts/encode.py:78-87 | encoding never raises, and v is returned if and only if f(u) + f(v) == point, the discriminant of f(v) is not 0 and j names the signs that lead to v |
| Encode.EncodeComplete | scripts/encode.py:78-87 | every decomposition of the point as f(u) + f(v) with a nonzero discriminant is returned for exactly one j in 0..3 |
| Encode.PointToValues | scripts/encode.py:90-107 | the first of 1000 draws that encodes is returned and decodes to the point; None exactly when all draws are rejected |
| EncodeC.FCMeaning | c-prototype/src/encode.c:146-214 | on 0..p-1 the C map equals the Python map where that is defined, is infinity elsewhere, and never returns NULL |
| EncodeC.FAtPrime | c-prototype/src/encode.c:84-187 | f(p) escapes the guard, its failed inversion leaves 0, and it is the point with omega == 0 whose ordinate is a residue |
| EncodeC.SameX0 | c-prototype/src/encode.c:84-127 | the abscissa computed with BIGNUM steps is the Python one |
| EncodeC.MapToPoint | c-prototype/src/encode.c:146-214 | the step-by-step code computes that map, for every u >= 0 |
| EncodeC.CalcVInPlace | c-prototype/src/encode.c:216-295 | the step-by-step code computes CalcVC, the function that CalcVCMeaning and SpuriousValue characterise |
| EncodeC.CalcVCMeaning | c-prototype/src/encode.c:216-295 | for omega != 0 the results are exactly the preimages, also when the discriminant is 0 |
| EncodeC.SpuriousValue | c-prototype/src/encode.c:243-283 | for omega == 0, where no residue is a preimage, the result is 0 or p for every j |
| EncodeC.MapsBackIff | c-prototype/src/encode.c:146-295 | f of the value calc_v returns for q and j is q exactly if omega != 0, or j is odd and y is a residue; f of the reduced value exactly if omega != 0 |
| EncodeC.RoundTripIff | c-prototype/src/encode.c:317-382 | es_decode called directly on what a draw (u, j) of es_encode yields gives the point back if and only if, for point - f(u), omega != 0, or j is neither 0 nor 2 and y is a residue |
| EncodeC.WovenRoundTripIff | c-prototype/src/encode.c:317-382 | es_decode called on the value reduced modulo p gives the point back if and only if omega of point - f(u) is not 0 |
| EncodeC.TryIff | c-prototype/src/encode.c:308-347 | exactly when a draw (u, j) yields v: u is regular, and either f(u) + f(v) == point with index j, or the difference has omega == 0 and v is 0 or p |
| EncodeC.TryComplete | c-prototype/src/encode.c:308-347 | every decomposition of a point into f(u) + f(v) is yielded for some j in 0..3, without exception |
| EncodeC.EsEncode | c-prototype/src/encode.c:297-349 | the first try that yields a value is returned, none exactly when all fail, and the returned pair decodes, directly and reduced, under exactly those two conditions |
| EncodeC.EsDecode | c-prototype/src/encode.c:351-382 | the step-by-step code computes the sum of the two maps that the round trips are about |
| Exceptional.ZeroPointIff | c-prototype/src/encode.c:236-240 | the curve has a point with omega == 0 if and only if -a*b is a residue |
| Exceptional.FourPointIff | scripts/encode.py:55-58 | the curve has a point with omega == 4 if and only if a*b*(4a^3 + 27b^2) is a residue |
| Exceptional.AllDecodeIff | c-prototype/src/encode.c:297-382 | every point under every draw decodes to itself, directly and through the weaver alike, if and only if -a*b is not a residue (or p == 3, where no u is usable) |
| Exceptional.CompleteEverywhereIff | scripts/encode.py:53-74 | calc_v finds every preimage of every point if and only if not both 2 and a*b*(4a^3 + 27b^2) are residues |
| WovenC.ValueAtNode | c-prototype/src/weaver.c:105-146 | evaluate at node k of what weave returns is the value of node k reduced modulo p, or 0 if the node clashes |
| WovenC.TransferAll | c-prototype/tst/combined_tst.cpp:35-85 | es_encode, precompute, weave, evaluate and es_decode over any n >= 2 nodes: fails exactly if some point is rejected by all its draws; what comes back is decoded from the coefficients at the node, is infinity at a clashing node, and is the point elsewhere if and only if its difference to f(u) does not have omega == 0 |
| WovenC.AllComeBackIff | c-prototype/tst/combined_tst.cpp:35-85 | with nodes distinct modulo p all points come back if and only if no difference has omega == 0, and always if -a*b is not a residue |
| TinyCurve.MissedPreimage | scripts/encode.py:58-60 | on y^2 == x^3 + x + 6 modulo 7, f(2) == (4, 2) but calc_v finds nothing for (4, 2) |
| TinyCurve.SpuriousPreimage | c-prototype/src/encode.c:255-282 | on the same curve the C calc_v returns 0 for (1, 1), and f(0) is infinity |
| TinyCurve.ModulusAsPreimage | c-prototype/src/encode.c:146-187 | on the same curve the C calc_v returns 7 for (1, 1) and j == 1, and f(7) is (1, 1) |
| Swu.Candidate1Meaning | scripts/decoyauth.py:13-16 | outside the exceptional case x1 solves the abscissa equation with w = z*u^2 |
| Swu.CandidateSymbols | scripts/decoyauth.py:17-20 | if g(x1) is not a square then g(x2) is |
| Swu.SwuChoice | scripts/decoyauth.py:13-22 | which equation x1 solves in the regular and in the exceptional case, and that x is x1 or w*x1 as g(x1) is a square or not |
| Swu.SimplifiedSwu | scripts/decoyauth.py:12-25 | for every u, including m == 0, the result is on the curve with lsb(y) == lsb(u); the square root never fails |
| Swu.SwuUnique | scripts/decoyauth.py:23-25 | abscissa, curve and parity determine the point |
| Dragonfly.TimesReduced | scripts/decoyauth.py:52-53 | reducing a scalar modulo the order does not change the multiple |
| Dragonfly.CommitMeaning | scripts/decoyauth.py:43-59 | the scalar acts on every point as rand plus mask, and the element is the negative of mask*P |
| Dragonfly.MaskCancels | scripts/decoyauth.py:43-63 | scalar*P + element == rand*P, although the scalar is reduced |
| Dragonfly.SharedPointValue | scripts/decoyauth.py:62-63 | the shared point is mine * (rand * P), whatever the mask |
| Dragonfly.Agreement | scripts/decoyauth.py:175-177 | both sides reach the same point for all secrets |
| Handshake.ElementMeaning | scripts/decoyauth.py:27-41 | the element of a key is the one sum of the simplified SWU points of u1 and u2 |
| Handshake.HashToElement | scripts/decoyauth.py:27-41 | the code computes that element |
| Handshake.CommitAll | scripts/decoyauth.py:113-124 | every frame is the commit of its key under the shared secrets |
| Handshake.EncodeAll | scripts/decoyauth.py:130-137 | fails exactly when some element is rejected by all its draws; otherwise every pair decodes to its element |
| Handshake.RecoveredAt | scripts/decoyauth.py:155-156 | evaluating the woven list at the hash of key k gives exactly the encoded value of key k |
| Handshake.SendAll | scripts/decoyauth.py:113-148 | the exact failure conditions of the AP; otherwise the coefficients it sends decode, at the hash of every key, to the element committed for that key |
| Handshake.DecodeAll | scripts/decoyauth.py:153-168 | from the coefficients alone every element is recovered, so no assertion fails, and the client's is returned |
| Handshake.ClientSession | scripts/decoyauth.py:62-76 | by the secrets alone: k is the abscissa of rA*rB*P, KCK and PMK are the first and second part of the derivation from k and the sum of all four secrets modulo the order |
| Handshake.ApSessionMeaning | scripts/decoyauth.py:202-210 | the session the AP derives for a key from any commit of the client, in the same terms |
| Handshake.ClientConfirm | scripts/decoyauth.py:172-189 | the sanity check holds, and the confirm value is keyed with that KCK over both scalars and elements, the client's first |
| Handshake.SameSession | scripts/decoyauth.py:62-76 | client and AP derive the same k, KCK and PMK for a key |
| Handshake.ConfirmSearch | scripts/decoyauth.py:197-220 | the first index in shuffled order with the received value, or nothing exactly when none has it |
| Handshake.Run | scripts/decoyauth.py:86-220 | for all keys, indices, secrets, draws and shuffles: the exact failure conditions; no assertion fails and the search always ends with an index; the coefficients sent decode to the element of every key; the client holds the element and the session of its own key, given by the secrets; the found index has the client's confirm value, and is the client's with one session on both sides unless another key gives the same confirm value |
| Rc4.ScheduleIsPermutation | hostap/wlantest/wep.c:25-31 | the table is a permutation of the byte values after every step of the key schedule |
| Rc4.RunningIsPermutation | hostap/wlantest/wep.c:35-42 | and after every byte of keystream |
| Rc4.CryptTwice | hostap/wlantest/wep.c:17-43 | applying the cipher twice with one key restores any buffer of any length |
| Rc4.ScheduleStep | hostap/wlantest/wep.c:28-31 | every step adds the entry it stands at and the key byte, cyclically, and exchanges two entries |
| Rc4.ScheduleStays | hostap/wlantest/wep.c:27-31 | the key 0, 0, -1, ..., -14 leaves the table unchanged for sixteen steps |
| Rc4.OutputOnAffine | hostap/wlantest/wep.c:40 | on every table that is affine in its index, the output byte as a polynomial in both indices |
| Rc4.AdvanceBack | hostap/wlantest/wep.c:37-39 | a step of the keystream can be taken back |
| Rc4.FirstByte | hostap/wlantest/wep.c:33-42 | the first keystream byte of every key in closed form of its scheduled table |
| Rc4.FirstBytes | hostap/wlantest/wep.c:33-42 | from the identity table the keystream begins 2, 5, 7 |
| Rc4.SetupTable | hostap/wlantest/wep.c:25-31 | the in-place key schedule computes the table |
| Rc4.WepCrypt | hostap/wlantest/wep.c:17-43 | every byte of the buffer is XORed with the keystream byte of its position |
| Michael.WordOperations | hostap/wlantest/tkip.c:173-188 | the rotations are rotations by 17, 3 and 30 places, and xswap exchanges the bytes of each half |
| Michael.BlockInverse | hostap/wlantest/tkip.c:191-201 | michael_block is a bijection, with its explicit inverse |
| Michael.OneWordDecides | hostap/wlantest/tkip.c:204-253 | two messages that differ in one word never reach the same state, under any key |
| Michael.MichaelMic | hostap/wlantest/tkip.c:204-253 | the block loop and its four endings equal the fold over header, data, 0x5a and 4 to 7 zero bytes, for every length |
| TkipVectors.BlockVector | hostap/wlantest/tkip.c:191-201 | one block from the state (0, 1) gives (c00015a8, c0000b95) |
| TkipVectors.MichaelVectors | hostap/wlantest/tkip.c:191-253 | the published MICs of the empty message, "M", "Mi" and "Michael" |
| TkipVectors.FrameVector | hostap/wlantest/test_vectors.c:20-46 | for the key and frame of the test vector, header fields, Michael key and MIC 68 81 a3 f3 d6 48 d0 3c |
| Michael.LastWords | hostap/wlantest/tkip.c:231-249 | for every length modulo 4 the last two words are the padded tail and 0 |
| TkipMixing.MixPhase1 | hostap/wlantest/tkip.c:108-127 | the in-place rounds compute phase 1 |
| TkipMixing.MixPhase2 | hostap/wlantest/tkip.c:130-170 | the in-place mixing and the sixteen stores compute phase 2 |
| TkipMixing.MixKey | hostap/wlantest/tkip.c:321-324 | both phases in place give the packet key that encryption and decryption use |
| TkipMixing.Phase1Injective | hostap/wlantest/tkip.c:119-126 | for a fixed key phase 1 never merges two starting values, whatever the S-box |
| TkipMixing.Step2Injective | hostap/wlantest/tkip.c:143-156 | the 96-bit mixing is injective for a fixed key, whatever the S-box |
| TkipMixing.Phase2Injective | hostap/wlantest/tkip.c:130-170 | for a fixed key, different TTAKs or low counters give different 16-byte RC4 keys, whatever the S-box |
| TkipMixing.PacketKeyInjective | hostap/wlantest/tkip.c:108-170 | both phases together: two packets have the same RC4 key if and only if transmitter, high and low counter agree |
| TkipMixing.SeedBits | hostap/wlantest/tkip.c:158-162 | the three cleartext bytes carry the low counter, and the middle one repeats the first with bit 5 set and bit 7 clear |
| TkipVectors.PacketKeyVectors | hostap/wlantest/tkip.c:62-170 | with the S-box of the source, the published RC4 keys for packet numbers 0 and 1 |
| Tkip.TkipEncrypt | hostap/wlantest/tkip.c:438-490 | fails exactly on short frames; otherwise the first hdrlen bytes, IV field and enciphered payload, MIC and ICV, for any hdrlen within the frame |
| Tkip.SendKeyIff | hostap/wlantest/tkip.c:462-466 | under one temporal key two frames are enciphered with the same RC4 key if and only if they have the same transmitter and packet number |
| Tkip.MichaelHeaderMeaning | hostap/wlantest/tkip.c:256-289 | frames to an AP, from an AP, between APs and direct ones have the same Michael header: destination, source, priority; the Michael key is chosen by the from-AP bit |
| Tkip.FragmentFields | hostap/wlantest/tkip.c:347-348 | sequence number, fragment number and more-fragments bit of any header, by its bytes |
| Tkip.IvBits | hostap/wlantest/tkip.c:475-480 | the key identifier and the ExtIV bit that receivers test are those sent |
| Tkip.SameKey | hostap/wlantest/tkip.c:313-330 | the receiver reads the sender's packet number from the IV field and mixes the same packet key |
| Tkip.SealedOpens | hostap/wlantest/tkip.c:313-342 | what the sender seals opens to payload and MIC |
| Tkip.OpensIff | hostap/wlantest/tkip.c:313-342 | a frame opens to a body if and only if it is long enough and is the encipherment of that body and its checksum |
| Tkip.OpenBody | hostap/wlantest/tkip.c:313-342 | the code opens exactly those frames |
| Tkip.TkipFrag.Store | hostap/wlantest/tkip.c:350-382 | the new fragment state and the reassembled payload, if the frame completes one |
| Tkip.CheckMic | hostap/wlantest/tkip.c:384-423 | when Michael is checked, on which bytes, and what is reported |
| Tkip.TkipDecrypt | hostap/wlantest/tkip.c:292-424 | result and fragment state as functions of the frame and the state before, and the result without a fragment state |
| Tkip.RoundTrip | hostap/wlantest/tkip.c:292-490 | decrypting an encrypted unfragmented frame gives the payload with a correct MIC, with or without a fragment state, keeps that state, and tkip_get_pn returns the packet number |
| TkipRuns.StoredInOrder | hostap/wlantest/tkip.c:344-382 | over any run of received frames, the buffer is the in-order concatenation of the decrypted bodies of fragments 0..fn of one receiver, transmitter and sequence number |
| TkipRuns.VerdictMeaning | hostap/wlantest/tkip.c:384-423 | what is returned, with which Michael result and which length, in terms of the bytes that are checked |
| TkipRuns.CheckedInOrder | hostap/wlantest/tkip.c:350-418 | after any run, a frame with fragment number > 0 is reported as correct or incorrect exactly when it completes an MSDU of at least 8 bytes; the checked bytes are then the in-order join of the decrypted bodies of fragments 0..k, each once, and the result is "correct" exactly when Michael over the join matches its last 8 bytes |
| TkipRuns.CheckedAlone | hostap/wlantest/tkip.c:384-415 | without a place for the Michael result, a frame that completes nothing is returned exactly when Michael over its own body matches |
| TkipInputs.LoneFragment | hostap/wlantest/tkip.c:384-415 | for every key and payload: fragment 1 on its own with a wrong MIC is returned unverified, or refused if there is no place for the result |
| TkipRuns.MsduArrives | hostap/wlantest/tkip.c:350-423 | whatever came before, the fragments of any MSDU received in order are joined, the last completes it, and its Michael result is about the whole |
| TkipRuns.AnnouncedIff | hostap/wlantest/tkip.c:364-382 | in a completed MSDU all parts but the last announce more fragments if and only if no frame since its first part had completed an MSDU already |
| TkipInputs.CompletedTwice | hostap/wlantest/tkip.c:364-382 | for every key and contents: after fragments 0 and 1, the latter without the more-fragments bit, fragment 2 completes again and is joined to both |
| TkipRuns.LengthIff | hostap/wlantest/tkip.c:384-422 | the length reported for any frame of any run; it exceeds the returned fragment if and only if the frame completes an MSDU and the fragment itself has n < 8 bytes, and is then 2^64 + n - 8 |
| TkipRuns.PayloadTail | hostap/wlantest/tkip.c:421-422 | for a completing frame of at least 8 bytes, the reported bytes are the end of the MSDU payload |
| TkipInputs.SplitMic | hostap/wlantest/tkip.c:403-422 | for every key and payload: a correct MSDU whose second fragment holds n < 8 bytes of the MIC is accepted by Michael and reported with length 2^64 + n - 8 |
| KeyState.MemcmpIsOrder | hostap/wlantest/rx_data.c:613 | comparing packet numbers with memcmp is comparing them as integers |
| KeyState.Station.CopyPtk | hostap/wlantest/sta.c:309-315 | the key is set and both counter arrays are cleared |
| KeyState.NewPtkAll | hostap/wlantest/sta.c:318-365 | the entry and exactly its siblings receive the key; all others stay |
| KeyState.FirstOkMeaning | hostap/wlantest/rx_eapol.c:289-299 | a derived key is chosen exactly if the MIC verifies under some KCK, and then the first such |
| KeyState.LastOkMeaning | hostap/wlantest/rx_eapol.c:301-328 | among preset keys it is the last such |
| KeyState.TryPresets | hostap/wlantest/rx_eapol.c:301-328 | the loop over preset keys leaves that key installed, or nothing changed |
| KeyState.DerivePtk | hostap/wlantest/rx_eapol.c:237-331 | the first derived key under which the MIC verifies becomes pending, or installed with its siblings if there is no key; otherwise the last such preset key is installed if there is no key |
| KeyState.Station.RxKey4of4 | hostap/wlantest/rx_eapol.c:1179-1206 | the pending key is promoted exactly when the MIC verifies under its KCK |
| KeyState.Station.RxData | hostap/wlantest/rx_data.c:509-757 | counter update, promotion or retry mark, as a function of the state before |
| KeyState.Station.RxMgmt | hostap/wlantest/rx_mgmt.c:3378-3436 | the management counter is overwritten by every decrypted frame of a station with a key |
| KeyState.LearnApMld | hostap/wlantest/rx_eapol.c:160-173 | the address changes for exactly the entries of that BSS |
| KeyState.Process | hostap/wlantest/rx_data.c:509-757 | processing any list of frames on the shared records leaves them as the run of values that the theorems below are about |
| KeyState.StepEffect | hostap/wlantest/rx_data.c:613-744 | any frame, any entry: either a key is installed in one of three ways and all counters are 0, or the key stays and no data counter decreases |
| KeyState.StepSources | hostap/wlantest/rx_eapol.c:177-331 | in one step a key stays, is the pending one, or was offered by this frame with a MIC that verifies under its KCK |
| KeyState.ReplacedOnlyBy | hostap/wlantest/rx_eapol.c:258-331 | an installed key is replaced only by promotion or a copy from a sibling, with zeroed counters |
| KeyState.CountersNeverDecrease | hostap/wlantest/rx_data.c:613-724 | over any run without an installation, with addresses changing in between, the key stays and no data counter decreases |
| KeyState.LoweredIff | hostap/wlantest/rx_mgmt.c:3386-3423 | without an installation, a frame lowers a counter if and only if it is a decrypted management frame with a packet number below the management counter |
| KeyState.MgmtCounterIff | hostap/wlantest/rx_mgmt.c:3386-3423 | over any run without an installation, the management counter of a station with a key never decreases if and only if the packet numbers of its decrypted management frames never fall, starting from the counter; without a key it stays |
| KeyState.MgmtCounterFalls | hostap/wlantest/rx_mgmt.c:3386-3423 | packet numbers 2 and 1 take the management counter to 2 and then 1 |
| KeyState.AcceptedStrictlyIncrease | hostap/wlantest/rx_data.c:613-724 | over any run, the packet numbers accepted between two key installations strictly increase per direction and TID |
| KeyState.KeysHaveOrigin | hostap/wlantest/rx_eapol.c:237-331 | in any run from an empty start, every installed key was offered by an earlier EAPOL-Key frame whose MIC verifies under its KCK, every pending key by such a frame of its own entry |
| KeyLaws.OfferPends | hostap/wlantest/rx_eapol.c:258-274 | a verified derivation for an entry with a key makes that key pending and changes nothing else anywhere |
| KeyLaws.PendingKept | hostap/wlantest/rx_eapol.c:258-274 | over any run, a pending key stays until another derivation is verified for the entry or it is promoted |
| KeyLaws.RekeyCompletes | hostap/wlantest/rx_eapol.c:258-274 | over any run, a key derived and verified for an entry with a key takes its place, with all counters 0, as soon as a message 4/4 or a data frame confirms it |
| KeyLaws.FirstKeyReaches | hostap/wlantest/sta.c:318-365 | a first key reaches exactly the entries with the station's address, own or of a link, under an AP of the same MLD address, which also learn the station's MLD address |
| KeyLaws.CounterIsPeak | hostap/wlantest/rx_data.c:590-724 | over any run between installations, every data counter is the largest packet number of the decrypted frames of its direction and TID |
| KeyLaws.RetryIff | hostap/wlantest/rx_data.c:728-757 | over any run, a retry is allowed exactly when some frame before could not be opened |
| KeyLaws.AddressStep | hostap/wlantest/sta.c:318-365 | which frame changes which address of an entry |

## Left out

- Elliptic-curve addition and its associativity: the source calls libraries; the group laws are hypotheses.
- SHA-256, HMAC, HKDF, CRC-32, AES: parameters.
- The TKIP S-box: a parameter of the mixing functions, whose general properties hold for every table; the table of the
  source is in `TkipVectors.dfy` and used for the known answers only.
- The AP's closing confirm message (`scripts/decoyauth.py:222-224`): it is sent and never read, so nothing depends on it.
- Probabilities, timing and constant-time behaviour; that point encoding succeeds in few tries.
- BIGNUM and EC_POINT allocation and freeing, and allocation failures in wlantest.
- Weaver.Weave: does not model matrices that are not square in the number of values.
- Weaver.EvalWeave: does not model the exception for an empty coefficient list.
- Weaver.PrecomputeUnchecked: does not model fewer than two nodes, where the C code indexes beyond its arrays.
- EncodeC.EsEncode: does not model failures of the random generator or of allocation, and takes the missing return after
  the last try as no value.
- EncodeC.EsDecode: takes a NULL from `f` as no result, where the C code passes it on to the point addition.
- Tkip.TkipEncrypt: does not model a frame shorter than the header its control bits announce, where the C code reads
  beyond the frame.
- WEP40 and group-key receive paths: they do not take the modelled packet-number test.
- Counters of TDLS links: they belong to the link and not to the station, whose counters such frames leave alone.
- PTKs installed by management frames in `rx_mgmt.c` (FT, FILS, PASN): a fourth way of installation, outside the 4-way
  handshake.
- Management frames that are too short, have no ExtIV bit or belong to no known station: they change no station.
- How PTKs are derived from PMKs: the candidates are the derived keys, in the order in which they are tried; a PMK from
  which no key can be derived contributes none.
- The MIC algorithms of EAPOL-Key frames: a predicate per frame that tells under which KCK its MIC verifies.
- The integration into hostapd (`hostap/src/common/sae.c`, `hostap/src/common/weaver.c` and the encoder and weaver in
  `hostap/src/crypto/crypto_openssl.c`): a further version of the encoder and weaver modelled here from `c-prototype`, with
  reductions in other places, inside the SAE state machine; nothing is stated about it.
- The CCMP, GCMP and BIP ciphers and capture files of wlantest: the key state depends on them only through whether a
  frame decrypts, which is an input here.
