# paoding knife protocol

A model of the contract between paoding's segmentation engine and its pluggable
segmentation strategies. In paoding's own vocabulary a strategy is a *knife*, the
characters at hand are the *beef*, and recognised words go to a *collector*.

The interface `Knife` has two operations and three constants:

- `assignable(beef, history, index)` tells how the character at `index` relates to a
  knife, given that scanning began at `history` (`index >= history`). The answer is one
  of `LIMIT = -1` (not a character of this knife), `ASSIGNED = 1` (a character of this
  knife) and `POINT = 0` (a character of this knife, but the next knife starts at the
  first POINT). A knife may dissect at a position only if it answered ASSIGNED there
  with `history == index`.
- `dissect(collector, beef, offset)` dissects from `offset`, reports words to the
  collector, and returns a non-zero integer. A positive `r` means `[offset, r)` was
  dissected, and `r >= beef.length` means the whole beef is done. A negative `r` has
  `-r >= offset` and means `[offset, -r)` was dissected. The knife cannot go on with
  the characters it has. The beef is then rebuilt from the characters at `-r` onwards
  plus newly read characters. A beef whose last character is `'\0'` is the last part
  of the text.

The model is one module, `KnifeProtocol` (`knife.dfy`). Its `Option`/`Result`
datatypes live in `Wrappers` (`wrappers.dfy`).

- Dispositions are a datatype with an encoding to the three integer codes and a
  decoding back.
- A knife is a value that holds its two operations as functions. Its `dissect`
  returns the reported words as a sequence of spans, together with its integer result.
- `Offer` enforces the gate and checks the result convention. `NextStart` and
  `NextKnifeStart` give the next-start rule, and `RuleStart` states the same rule
  independently as "first POINT, else the LIMIT".
- `Rebase` rebuilds the beef after a negative result, and `Replay` runs a whole
  sequence of rebuilds.

The source does not say everything this model needs, so the model decides these cases:

- A negative result whose magnitude is past the end of the beef is refused
  (`BeyondBeef`), because the beef cannot be rebuilt from such a point.
- A positive result below `offset` is refused (`Backward`). The interface states
  `|r| >= offset` only for negative results. For positive ones it says the call
  dissected from `offset` to `r`.
- Words must lie inside the part the result says was dissected. They must also lie
  inside the beef.
- The next-start scan asks the knife about one position after another and stops at
  the first answer that is not ASSIGNED. A scan that meets an answer outside the
  three codes first is refused.
- Once the beef ends in '\0' no more characters are read. The tail left by a
  negative result must still hold that '\0'. A result that consumed the marker
  has nothing left to wait for.

The signed-integer convention has one gap: a knife at offset 0 cannot report that it
stalled before dissecting anything, because that result would be `-0`, which is `0`
(`StallAtZeroUnencodable`).

## Model

| member | source | states |
|---|---|---|
| KnifeProtocol.Code | paoding-analysis/src/net/paoding/analysis/knife/Knife.java:41-56 | each disposition is reported as one of the codes LIMIT=-1, POINT=0, ASSIGNED=1 |
| KnifeProtocol.DispositionOf | paoding-analysis/src/net/paoding/analysis/knife/Knife.java:41-56 | an integer answer is a disposition exactly when it lies in -1..1, and then that disposition's code is the integer |
| KnifeProtocol.CodesDistinct | paoding-analysis/src/net/paoding/analysis/knife/Knife.java:41-56 | two dispositions have the same code only if they are the same disposition |
| KnifeProtocol.DispositionRoundTrip | paoding-analysis/src/net/paoding/analysis/knife/Knife.java:41-56 | decoding a disposition's code gives back that disposition |
| KnifeProtocol.NextStart | paoding-analysis/src/net/paoding/analysis/knife/Knife.java:35-56 | the next start comes after positions that are all ASSIGNED, and is the end of the scan or a position that is not ASSIGNED |
| KnifeProtocol.NextStartFollowsRule | paoding-analysis/src/net/paoding/analysis/knife/Knife.java:35-56 | that start is the first POINT before the first LIMIT, or the LIMIT when there is no such POINT, or the end when there is neither |
| KnifeProtocol.Survey | paoding-analysis/src/net/paoding/analysis/knife/Knife.java:58-72 | querying every position from `index >= history` to the end gives the knife's dispositions, or fails exactly at a position whose answer is no disposition |
| KnifeProtocol.NextKnifeStart | paoding-analysis/src/net/paoding/analysis/knife/Knife.java:35-72 | scanning from `index >= history`, the next knife starts at or after `index`, every position before it is ASSIGNED, and the start itself (inside the beef) is POINT or LIMIT; the scan fails exactly when it meets an answer that is no disposition before any POINT or LIMIT |
| KnifeProtocol.NextKnifeStartFollowsRule | paoding-analysis/src/net/paoding/analysis/knife/Knife.java:35-72 | when every answer from the anchor on is a disposition, the scan's start is the anchor plus the documented first-POINT-else-LIMIT start over those dispositions |
| KnifeProtocol.AssignedAnchorMovesOn | paoding-analysis/src/net/paoding/analysis/knife/Knife.java:63-67 | when the knife answers ASSIGNED at its anchor, the next knife starts strictly after the anchor |
| KnifeProtocol.ResultCode | paoding-analysis/src/net/paoding/analysis/knife/Knife.java:85-87 | a completed dissection is reported as its non-negative end, and a stalled one as the negated end |
| KnifeProtocol.ReadResult | paoding-analysis/src/net/paoding/analysis/knife/Knife.java:77-87 | a result is accepted exactly when it is non-zero, its magnitude is at least `offset`, and a negative one is within the beef; its sign says completed or stalled; 0 is always refused |
| KnifeProtocol.OutcomeRoundTrip | paoding-analysis/src/net/paoding/analysis/knife/Knife.java:85-87 | every well-formed outcome, once encoded as an integer, is read back unchanged |
| KnifeProtocol.StallAtZeroUnencodable | paoding-analysis/src/net/paoding/analysis/knife/Knife.java:85-87 | a stall at position 0 would be encoded as 0, which is refused |
| KnifeProtocol.Unconsumed | paoding-analysis/src/net/paoding/analysis/knife/Knife.java:86-87 | the consumed prefix and the unconsumed tail make up the beef; the tail is empty exactly when the result reaches the end of the beef |
| KnifeProtocol.ReachedEndDissectsAll | paoding-analysis/src/net/paoding/analysis/knife/Knife.java:86 | a positive result at or past `beef.length` leaves nothing; a smaller one leaves `beef.length - r` characters |
| KnifeProtocol.Offer | paoding-analysis/src/net/paoding/analysis/knife/Knife.java:63-96 | an offer succeeds exactly when the knife answered ASSIGNED at `history == index == offset`, its result is accepted, and its words lie in what it dissected; refusal for lack of ASSIGNED is reported as such |
| KnifeProtocol.KeepsDissectRules | paoding-analysis/src/net/paoding/analysis/knife/Knife.java:74-96 | one dissect call at `offset` keeps the rules when its result is non-zero, its magnitude is at least `offset`, a negative result lies within the beef, and every word lies inside the beef and inside what the result says was dissected |
| KnifeProtocol.OfferChecksDissectRules | paoding-analysis/src/net/paoding/analysis/knife/Knife.java:63-96 | at a position the knife ASSIGNED, an offer succeeds exactly when the dissect call keeps the rules |
| KnifeProtocol.Honours | paoding-analysis/src/net/paoding/analysis/knife/Knife.java:58-96 | a knife keeps the contract when every answer for `index >= history` is one of the three codes, and every dissect call at a position it ASSIGNED keeps the rules |
| KnifeProtocol.HonouringKnifeIsTotal | paoding-analysis/src/net/paoding/analysis/knife/Knife.java:58-96 | for a knife that keeps the contract, an offer succeeds exactly at the positions it ASSIGNED, and the next start is always found |
| KnifeProtocol.Rebase | paoding-analysis/src/net/paoding/analysis/knife/Knife.java:87-92 | after a negative result `r`, the dissected prefix `beef[..-r]` followed by the new beef is the old beef followed by the new characters |
| KnifeProtocol.RebaseKeepsUnconsumed | paoding-analysis/src/net/paoding/analysis/knife/Knife.java:87-92 | after an accepted negative result, the rebuilt beef is the tail that result left unconsumed followed by the new characters |
| KnifeProtocol.HelloYang | paoding-analysis/src/net/paoding/analysis/knife/Knife.java:89-92 | "hello ya" with result -5 reads as stalled at 5, and appending "ng!" gives the new beef " yang!" |
| KnifeProtocol.RebasedPositions | paoding-analysis/src/net/paoding/analysis/knife/Knife.java:87-92 | each stretch `[i, j)` of the new beef is the stretch `[-r+i, -r+j)` of the old beef followed by the new characters |
| KnifeProtocol.IsFinal | paoding-analysis/src/net/paoding/analysis/knife/Knife.java:82 | a beef is the last part of the text exactly when its last character is '\0' |
| KnifeProtocol.FinalAfterRebase | paoding-analysis/src/net/paoding/analysis/knife/Knife.java:82 | the new beef ends in '\0' exactly when the new characters do, or, with none appended, when the old beef did and its tail is not empty |
| KnifeProtocol.Replay | paoding-analysis/src/net/paoding/analysis/knife/Knife.java:87-92 | repeated rebuilds: each refill needs a negative result within the current beef; once the beef is the last part of the text, no characters are read and the tail must keep its '\0'; the result is the committed characters and the current beef |
| KnifeProtocol.FinalSegmentReadsNothing | paoding-analysis/src/net/paoding/analysis/knife/Knife.java:82-92 | starting from the last part of the text, any accepted run of rebuilds reads no characters and leaves a beef that still ends in '\0' |
| KnifeProtocol.NoReadingAfterTheEnd | paoding-analysis/src/net/paoding/analysis/knife/Knife.java:82-92 | a refill that reads "b" after the beef "a\0" is refused |
| KnifeProtocol.ReplayLosesNothing | paoding-analysis/src/net/paoding/analysis/knife/Knife.java:87-92 | over any sequence of rebuilds, the committed characters followed by the current beef are the first beef followed by everything appended, so nothing is lost or repeated |

## Left out

- Concrete knives (CJK, combinatorics, number and letter knives) and their dictionary matching: they are named by the interface but their code is not part of this model, so a knife here is any pair of operations.
- The Java `interface` becomes a datatype that holds two function values, because Dafny traits are not used here. Object identity and any knife state are therefore not modelled.
- The `Collector` becomes the sequence of spans that `dissect` returns. Its storage, and the word text it receives, are not modelled. The interface states no order for reported words, so none is required.
- The `Beef` class is modelled as a plain character sequence; its internals are not part of this model.
- The `Paoding` dispatcher loop, stream reading, dictionary loading and analyzer integration are not part of this model. The model keeps only the gate, the next-start rule and the rebuild step that the interface documents.
- ReadResult: results are unbounded integers. Java's 32-bit `int`, including the overflow of negating `Integer.MIN_VALUE`, is not modelled.
