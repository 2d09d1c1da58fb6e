# The lossless codes of B.U.D.

The crate `bud` stores content in containers, packs it with a Huffman code, spreads it over erasure
shards, secret shares and a carousel of video frames, and proves chunks against a Merkle root. These
modules model the parts where a wrong loop would lose data, and prove what they promise: what went in
comes out, for all inputs, or it is stated exactly when it does not.

| area | modules |
|---|---|
| Huffman codec | `HuffmanTree`, `HuffmanHeight`, `HuffmanOptimality`, `HuffmanLengths`, `HuffmanWorstCase`, `CanonicalCode`, `HuffmanBuilding`, `HuffmanTables`, `HuffmanPacking`, `HuffmanDecoding`, `Huffman`, `HuffmanShortest`, `HuffmanAnswers` |
| Carousel | `CarouselSystem`, `Elimination`, `KaruselDecoding`, `LcRng`, `Sampling`, `KnownAnswers`, `KaruselSending`, `Transmission`, `Disagreement` |
| Codes over GF(2^8) | `Gf256`, `Gf256Log`, `Gf8Tables`, `LinearAlgebra`, `GaussJordan`, `Cauchy`, `Erasure`, `Lagrange`, `Shamir`, `ShamirCoefficients` |
| Merkle tree | `Das` |
| Container and pipeline | `Structure`, `JsonRecords`, `PlainCuts`, `WireFormats`, `Container`, `Pipe`, `FastCdc`, `Multifile` |
| Shared | `Wrappers`, `Sequences`, `Arithmetic`, `PowersOfTwo`, `Bytes`, `BitStrings`, `Chunking`, `Hashing` |

How the model is made:

- Code that works step by step is a method with the same loops and state; its contract is stated in terms
  of a definition that does not mention the loop. Objects with state (`KaruselDecoder`,
  `TenantMultifileStore`, the tables of `Gf8`) are classes.
- A byte is an integer below 256. Exclusive or, shifts and 64-bit wrap-around are written out.
- SHA3 is any function to 32 bytes (`Hashing.Hash`). Nothing is assumed of it. Where a promise needs
  different inputs to have different digests, the theorem names the two inputs that would have to collide.
- What comes from outside is a parameter: the format detector, the UTF-8 test and the zstd decoder
  (`Pipe.Outside`), and the table of the rolling hash (`FastCdc.Config`).

Where code and comments disagree the model follows the code:

- The comment on the Cauchy matrix places the data nodes at p, p + 1, ..., the code at k, k + 1, ...
  modulo 256. Encoding therefore succeeds exactly for p <= k <= 128 (`Erasure.NodesApartIff`).
- `decompress(compress(d)) == d` is documented for every input. The encoder does not limit code lengths
  and the decoder refuses codes of more than 32 bits: `Huffman.RoundTrip` gives the exact condition,
  `HuffmanShortest.DoesNotSurvive` an input that is lost, and no input below 9227465 bytes is.
- Storing compressed is documented as lossless too. The exact condition carries over to the merged pieces
  of the content (`Pipe.StoreCompressedThenRestore`), and `Pipe.StoredAndLost` is a content that is lost.
- Sender and receiver of the carousel are documented to derive the blocks of a repair drop by the same
  rule. The sender applies it to all 64 bits of the drop number, the receiver to the 32 bits in the frame.
  A delivered drop is right for all messages iff the two compositions are equal
  (`Transmission.FaithfulIffEndsAgree`). They are for all numbers below 2^32 and for messages of up to two
  blocks; for three blocks and the number 2^32 + 1 they are not, and wrong data is returned
  (`Disagreement.ReceivesWrongData`).
- Fewer than k secret shares are documented to reveal nothing. All coefficients but the constant term are
  fixed numbers, so the documented independence does not hold: a share determines the secret
  (`Shamir.OneShareDetermines`).
- Splitting a secret is documented for up to 255 shares; the array of coefficients has 32 slots, so a
  threshold above 33 stops the program (`Shamir.Split`).
- A delta is documented as lossless; it loses a changed last block that is shorter than the others
  (`Multifile.DeltaRoundTrip`).
- The carousel decoder returns nothing when the announced length leaves the last block unused and that
  block is not determined (`Transmission.ShortLength`). A sender never announces such a length.

## Model

| member | source | states |
|---|---|---|
| Huffman.RoundTrip | bud/src/bud_format_huffman.rs:29-181 | packing and then unpacking returns the input exactly when its longest code has at most 32 bits and it is at most 4 GiB, and `None` otherwise; every input shorter than 9227465 bytes comes back |
| Huffman.CompressedParses | bud/src/bud_format_huffman.rs:29-181 | what packing produces parses to the packed input iff the longest code has at most 32 bits and the size is at most 4 GiB, and to no other text ever |
| Huffman.UnpackedCompressed | bud/src/bud_format_huffman.rs:88-181 | the same as a value: unpacking a packed input gives the input within the limits and nothing beyond them |
| Huffman.Compress | bud/src/bud_format_huffman.rs:29-85 | for every input the output is magic, version, length and table followed by a body of known size; with codes of up to 57 bits the bits of the body are the codes of the input followed by fewer than eight zero bits |
| Huffman.Decompress | bud/src/bud_format_huffman.rs:88-181 | for every byte string: the result is `Some(out)` iff the bytes are a header, a table without a second length for a symbol and within the Kraft inequality, and a body that begins with the codes of `out`, with the special rules for empty input |
| Huffman.ParsesUnique | bud/src/bud_format_huffman.rs:88-181 | no byte string unpacks to two texts |
| Huffman.UnpackBody | bud/src/bud_format_huffman.rs:116-180 | the part of unpacking after the table: accepted exactly when the declarative description of a body holds |
| Huffman.ParseTable | bud/src/bud_format_huffman.rs:107-115 | the loop over table entries computes the table or fails on a symbol that already has a length |
| Huffman.TableRoundTrip | bud/src/bud_format_huffman.rs:40-50 | a written table reads back as the code lengths it was written from |
| Huffman.HeadFields | bud/src/bud_format_huffman.rs:36-50 | the fields the parser cuts out of a written head are the ones that were written |
| WireFormats.HeadIsLaidOut | bud/src/bud_format_huffman.rs:36-50 | the head byte by byte: mark, version, 8-byte length, number of entries, then symbol and code length of every symbol that occurs, ascending |
| WireFormats.HeadIsNeeded | bud/src/bud_format_huffman.rs:88-115 | only bytes with this head and room for the table unpack |
| Huffman.CountBytes | bud/src/bud_format_huffman.rs:30-33 | the counting loop gives the multiplicity of every byte |
| Huffman.FrequenciesTotal | bud/src/bud_format_huffman.rs:30-33 | the frequencies add up to the input length |
| Huffman.LengthsOfData | bud/src/bud_format_huffman.rs:34-45 | every byte of the input has a code, the longest code is the stated maximum and fits a byte, and an empty input has no codes |
| Huffman.ShortDataFits | bud/src/bud_format_huffman.rs:22 | an input of fewer than 9227465 bytes never needs a code of more than 32 bits |
| Huffman.Longest | bud/src/bud_format_huffman.rs:132 | the maximum of the code lengths |
| HuffmanShortest.NoPrefixCodeIsShorter | bud/src/bud_format_huffman.rs:185-252 | whatever prefix code one chooses for an input, the codes of the input under the codec have no more bits |
| HuffmanShortest.PrefixCodesAreAdmissible | bud/src/bud_format_huffman.rs:254-270 | the word lengths of every prefix code obey the Kraft inequality |
| HuffmanShortest.EncodedSize | bud/src/bud_format_huffman.rs:66-79 | the number of code bits is the sum of frequency times length |
| HuffmanShortest.EncodedBounds | bud/src/bud_format_huffman.rs:66-83 | every byte costs at least one bit and at most the longest code |
| HuffmanShortest.PackedBounds | bud/src/bud_format_huffman.rs:36-83 | a packed form is at least an eighth of its input, and at most 532 bytes and the longest code for every byte |
| HuffmanShortest.DoesNotSurvive | bud/src/bud_format_huffman.rs:130-135 | whichever 34 neighbouring byte values one takes, there is an input of 14930351 bytes over them whose packed form unpacks to nothing |
| HuffmanShortest.FibonacciTextNeedsLongCodes | bud/src/bud_format_huffman.rs:202-232 | n neighbouring byte values with Fibonacci frequencies need codes of n - 1 bits, wherever they begin |
| HuffmanWorstCase.FibonacciNeedsLongCodes | bud/src/bud_format_huffman.rs:202-232 | the merge loop turns the first n Fibonacci numbers, at any place in the table, into a tree of height n - 1 |
| HuffmanLengths.CodeLengthsAreOptimal | bud/src/bud_format_huffman.rs:185-252 | among all lengths that leave room for every used symbol, those of the Huffman tree have the least sum of frequency times length; this includes inputs of one symbol |
| HuffmanLengths.KraftSum | bud/src/bud_format_huffman.rs:185-252 | with two or more used symbols the code space is filled exactly; a lone symbol takes half |
| HuffmanLengths.LengthsOfUsed | bud/src/bud_format_huffman.rs:235-252 | exactly the used symbols have codes, and the longest code is the height of the tree, at least 1 |
| HuffmanLengths.LongCodeNeedsInput | bud/src/bud_format_huffman.rs:202-232 | a longest code of n >= 2 bits needs at least the Fibonacci number n + 2 of input bytes |
| HuffmanLengths.ShortInputsHaveShortCodes | bud/src/bud_format_huffman.rs:22 | frequencies that sum to less than 9227465 give codes of at most 32 bits |
| HuffmanOptimality.BuildIsOptimal | bud/src/bud_format_huffman.rs:202-228 | for every forest the tree built from it costs no more than any lengths that obey the Kraft inequality |
| HuffmanOptimality.MergedLengths | bud/src/bud_format_huffman.rs:221-227 | lengths for a forest give lengths for the merged forest that save the weight of the joined tree |
| HuffmanHeight.WeightOfHeight | bud/src/bud_format_huffman.rs:202-228 | a tree built by joining lightest trees weighs at least the Fibonacci number of its height plus two |
| HuffmanHeight.MergeKeepsBalance | bud/src/bud_format_huffman.rs:203-228 | one round of joining keeps: no child of a tree outweighs another tree, and no child in a tree outweighs its parent's sibling |
| HuffmanBuilding.LengthsByFreq | bud/src/bud_format_huffman.rs:185-233 | the vector of nodes with its used flags, the joining loop and the descent compute the depths in the Huffman tree |
| HuffmanBuilding.TwoLightest | bud/src/bud_format_huffman.rs:204-220 | one scan finds the first lightest unused node and the first lightest of the others |
| HuffmanAnswers.ThreeEqual | bud/src/bud_format_huffman.rs:202-232 | of three equal frequencies the last symbol has the short code |
| HuffmanAnswers.JoinedComesLast | bud/src/bud_format_huffman.rs:202-232 | a joined tree is taken behind older trees of its weight |
| HuffmanAnswers.CodesOfThree | bud/src/bud_format_huffman.rs:51-64 | for lengths 2, 2, 1 the codes are 10, 11 and 0 |
| HuffmanBuilding.JoinLightest | bud/src/bud_format_huffman.rs:204-227 | joining two nodes of the vector is merging the forest of unused trees |
| HuffmanBuilding.DfsLengths | bud/src/bud_format_huffman.rs:235-252 | the recursive descent writes every leaf's depth, at least 1, into the table and nothing else |
| HuffmanBuilding.HeightFitsByte | bud/src/bud_format_huffman.rs:243 | with 256 symbols no depth is cut off by the conversion to a byte |
| HuffmanBuilding.Vectorize | bud/src/bud_format_huffman.rs:186-193 | one unused leaf for every symbol with a frequency, in order |
| HuffmanBuilding.FirstUnused | bud/src/bud_format_huffman.rs:229 | after the joining loop the first unused node is the root |
| HuffmanTables.AssignCodes | bud/src/bud_format_huffman.rs:51-64 | the running code of the encoder is, for every symbol, the first code of its length plus its rank, for codes of up to 63 bits |
| CanonicalCode.PrefixFree | bud/src/bud_format_huffman.rs:136-150 | with lengths that obey the Kraft inequality no code begins another |
| CanonicalCode.BeginningIsNoCode | bud/src/bud_format_huffman.rs:171-177 | a proper beginning of a code lies beyond all codes of its own length, so the decoder never stops early |
| CanonicalCode.NextCode | bud/src/bud_format_huffman.rs:57-64 | in order of (length, symbol) each code is the one before plus one, shifted by the difference of the lengths |
| CanonicalCode.EndIsKraftSum | bud/src/bud_format_huffman.rs:145-150 | the first free number of m bits is the Kraft sum scaled to 2^m |
| CanonicalCode.CodeValue | bud/src/bud_format_huffman.rs:52-64 | every canonical code fits the number of bits of its length |
| HuffmanPacking.PackBody | bud/src/bud_format_huffman.rs:65-83 | the 64-bit packer emits a body of the size of the codes rounded up to bytes, for all inputs; with codes of up to 57 bits it emits the codes, most significant bit first, and fewer than eight zero bits |
| BitStrings.LowIsRemainder | bud/src/bud_format_huffman.rs:72 | keeping the low bits of a word is the remainder modulo a power of two |
| HuffmanPacking.PushCode | bud/src/bud_format_huffman.rs:72-73 | shifting a code into the word appends its bits to the waiting bits |
| HuffmanPacking.PopByte | bud/src/bud_format_huffman.rs:74-78 | a byte taken from the word is the eight bits that have waited longest |
| HuffmanPacking.Flush | bud/src/bud_format_huffman.rs:80-83 | the last byte holds the waiting bits and zeros |
| HuffmanDecoding.DecodeBody | bud/src/bud_format_huffman.rs:151-180 | the bit walk returns the text of the wanted length that the bits encode, and `None` exactly if there is none |
| HuffmanDecoding.Determined | bud/src/bud_format_huffman.rs:159-178 | of two texts whose encodings begin the same bits the shorter begins the longer |
| HuffmanDecoding.Stuck | bud/src/bud_format_huffman.rs:160-170 | a walk that runs out of bits or of code length shows that no text of the wanted length is encoded |
| HuffmanDecoding.BitAt | bud/src/bud_format_huffman.rs:163-164 | byte position and shift address the bit of that number |
| HuffmanAnswers.BitsOfOneByte | bud/src/bud_format_huffman.rs:163-164 | the bits of a byte are taken from the highest on |
| HuffmanDecoding.BuildDecoder | bud/src/bud_format_huffman.rs:136-150 | count, first code and symbols of every length up to 32 |
| HuffmanDecoding.Recognise | bud/src/bud_format_huffman.rs:171-174 | the table test succeeds iff the bits read are a code, and gives its symbol |
| HuffmanDecoding.KraftOk | bud/src/bud_format_huffman.rs:254-270 | accepts exactly lengths of at most 32 whose Kraft sum is at most one |
| Transmission.Receive | bud/src/bud_format_qrvideo.rs:231-385 | for every run of frames, foreign ones included, and every message the frames are consistent with: the result is the message exactly when the delivered drops determine all blocks; if nothing comes out of a transmission, another message of the same length explains every delivered drop as well |
| Transmission.SendThenReceive | bud/src/bud_format_qrvideo.rs:43-60 | the k systematic frames of any message alone bring it over |
| Transmission.SystematicSuffices | bud/src/bud_format_qrvideo.rs:56-59 | once every block has arrived in a systematic frame the drops have a single explanation |
| Transmission.SenderExplains | bud/src/bud_format_qrvideo.rs:56-146 | the zero-padded blocks of the sender explain every drop its frames deliver |
| Transmission.SystematicDelivers | bud/src/bud_format_qrvideo.rs:250-264 | a systematic frame delivers the drop of its block |
| Transmission.RepairDelivers | bud/src/bud_format_qrvideo.rs:66-104 | a repair frame of any 64-bit number delivers one drop, named by the composition of the low 32 bits and holding the exclusive or over the composition of the whole number; the padded blocks satisfy it if the two agree |
| Transmission.FaithfulIffEndsAgree | bud/src/bud_format_qrvideo.rs:66-129 | for every number of blocks and every 64-bit drop number: the drop delivered is right for all messages iff sender and receiver derive the same composition |
| Transmission.TurnFrames | bud/src/bud_format_qrvideo.rs:187-199 | a turn is the k systematic frames from the turn on, cyclically, and k repair frames whose numbers count on modulo 2^64, each packed with the parity of the turn and its flag |
| Transmission.TransmitTurn | bud/src/bud_format_qrvideo.rs:187-199 | of a turn of both kinds any frames arrive, in any order and repeated: provided the ends agree on the repair frames among them, the message comes out exactly when the drops determine all blocks, and so it does when every systematic frame arrives |
| Transmission.EarlyTurnsAgree | bud/src/bud_format_qrvideo.rs:194-199 | the ends agree in all turns whose drop numbers stay below 2^32 |
| Transmission.TwinIsAnotherMessage | bud/src/bud_format_qrvideo.rs:43-53 | blocks that differ from the padded blocks of a message in first bytes only are the padded blocks of another message of the same length |
| Disagreement.FarComposition | bud/src/bud_format_qrvideo.rs:66-83 | for three blocks the sender combines blocks 0 and 1 in the drop numbered 2^32 + 1 |
| Disagreement.NearComposition | bud/src/bud_format_qrvideo.rs:107-129 | the receiver takes that drop for blocks 1 and 2 |
| Disagreement.FarNumberDisagrees | bud/src/bud_format_qrvideo.rs:66-129 | so for three blocks and that number the ends disagree, and the drop is wrong for some message |
| Disagreement.TwoBlocksAgree | bud/src/bud_format_qrvideo.rs:66-129 | messages of one or two blocks are never affected, whatever the number |
| Disagreement.ReceivesWrongData | bud/src/bud_format_qrvideo.rs:66-264 | for every message of three blocks: two systematic frames and that repair frame make the receiver return a message whose third block is the beginning of the first |
| Transmission.ShortLength | bud/src/bud_format_qrvideo.rs:371-385 | if the announced length fits into k - 1 blocks, drops can fix the message and still leave a block open, so that nothing is returned |
| KaruselDecoding.KaruselDecoder.New | bud/src/bud_format_qrvideo.rs:231-242 | a decoder exists exactly for 1 to 65535 blocks and a nonzero length that fits |
| KaruselDecoding.KaruselDecoder.AddFrame | bud/src/bud_format_qrvideo.rs:250-264 | frames that parse deliver their drop, all others change nothing |
| KaruselDecoding.KaruselDecoder.AddDrop | bud/src/bud_format_qrvideo.rs:267-288 | the decoder keeps exactly the solutions of all drops received; drops outside the message are ignored; counter and pending rows stay well-formed |
| KaruselDecoding.KaruselDecoder.Resolve | bud/src/bud_format_qrvideo.rs:290-314 | the peeling cascade ends and keeps the set of solutions |
| KaruselDecoding.KaruselDecoder.Eliminate | bud/src/bud_format_qrvideo.rs:318-368 | elimination completes the decoder or changes nothing, and then every solution has a different twin |
| KaruselDecoding.KaruselDecoder.Assemble | bud/src/bud_format_qrvideo.rs:371-385 | never wrong data: a result is the message of every explanation of the drops; never needlessly nothing: if there is an explanation, there is a result iff it is the only one; a failure leaves the state as it was |
| KaruselDecoding.Reduce | bud/src/bud_format_qrvideo.rs:271-281 | a drop minus its solved blocks says the same about every message that agrees with them |
| KaruselDecoding.Sweep | bud/src/bud_format_qrvideo.rs:298-312 | substituting a found block into all rows keeps the solutions and leaves rows of two or more unknowns |
| KaruselDecoding.FillIn | bud/src/bud_format_qrvideo.rs:356-366 | after elimination every unknown is read off its row and the exit for rows with several unknowns is never taken |
| KaruselDecoding.OrderDoesNotMatter | bud/src/bud_format_qrvideo.rs:267-288 | what explains the drops, and whether only one message does, depends on which drops arrived and not on order or repetition |
| KaruselDecoding.TwinMessages | bud/src/bud_format_qrvideo.rs:318-368 | twins are different messages of the announced length whenever that length reaches into the last block |
| KaruselDecoding.SolvedDetermines | bud/src/bud_format_qrvideo.rs:371-385 | a complete decoder has the only explanation, and its joined blocks are the message |
| Elimination.ReduceMasks | bud/src/bud_format_qrvideo.rs:332-355 | Gauss-Jordan over GF(2) either gives every unknown a pivot row or proves that each solution has a twin |
| Elimination.PivotRow | bud/src/bud_format_qrvideo.rs:356-363 | every pivot row ends with exactly one unknown |
| Elimination.NoPivot | bud/src/bud_format_qrvideo.rs:335-342 | a column without pivot gives a second solution |
| KaruselDecoding.KaruselDecoder.JoinSolved | bud/src/bud_format_qrvideo.rs:375-384 | the solved blocks, cut to the announced length, are the message of every explanation |
| KaruselDecoding.Join | bud/src/bud_format_qrvideo.rs:375-384 | the loop over blocks gives the first bytes of the joined blocks |
| KaruselDecoding.Unknowns | bud/src/bud_format_qrvideo.rs:332 | exactly the unsolved blocks, ascending |
| KaruselDecoding.Position | bud/src/bud_format_qrvideo.rs:300 | where a block stands in a row, if it does |
| KaruselDecoding.KaruselDecoder.constructor | bud/src/bud_format_qrvideo.rs:235-241 | a new decoder has solved nothing and is explained by every message |
| Elimination.FindPivot | bud/src/bud_format_qrvideo.rs:335-342 | the first row with the unknown that is not a pivot row yet, if any |
| Elimination.ClearColumn | bud/src/bud_format_qrvideo.rs:344-354 | the pivot row is added to every other row with the unknown |
| Elimination.ToMasks | bud/src/bud_format_qrvideo.rs:322-331 | rows as sets of unknowns |
| CarouselSystem.SubstitutedKeeps | bud/src/bud_format_qrvideo.rs:300-304 | substituting a found block in a row keeps the solutions |
| CarouselSystem.RecordKeeps | bud/src/bud_format_qrvideo.rs:296-297 | recording a found block keeps the solutions |
| KaruselSending.New | bud/src/bud_format_qrvideo.rs:43-53 | a sender exists exactly for messages of 1 to 65535 blocks of 200 bytes |
| KaruselSending.PaddedMessage | bud/src/bud_format_qrvideo.rs:47 | the zero-padded blocks, cut to the length, are the message |
| KaruselSending.BlocksOfMessage | bud/src/bud_format_qrvideo.rs:43-53 | padded blocks whose message reaches into the last one are the padded blocks of that message |
| KaruselSending.SystematicDrop | bud/src/bud_format_qrvideo.rs:56-59 | a systematic drop is its block under its number |
| KaruselSending.XorOfBlocks | bud/src/bud_format_qrvideo.rs:84-98 | the symbol, zero-extended, is the exclusive or of the zero-extended chosen blocks, and it is as long as the longest of them |
| KaruselSending.XorInto | bud/src/bud_format_qrvideo.rs:93-97 | a block is added into the symbol as far as it reaches |
| KaruselSending.LongestOf | bud/src/bud_format_qrvideo.rs:87-91 | the length of the longest chosen block |
| KaruselSending.RepairDrop | bud/src/bud_format_qrvideo.rs:66-104 | a repair drop is the exclusive or over the composition of its number, as long as the longest of the blocks |
| KaruselSending.Pack | bud/src/bud_format_qrvideo.rs:132-146 | packing succeeds for up to 200 bytes, and the frame parses back to number, flags and payload |
| WireFormats.FrameLayout | bud/src/bud_format_qrvideo.rs:132-146 | a frame byte by byte: number, turn, flags, a zero, length, mark and up to 200 bytes |
| WireFormats.FrameIsRead | bud/src/bud_format_qrvideo.rs:250-264 | a frame is read exactly if it is laid out so |
| Sampling.Draw | bud/src/bud_format_qrvideo.rs:107-129 | the rejection sampling loop ends, and gives the composition of the number |
| Sampling.CompositionPicks | bud/src/bud_format_qrvideo.rs:107-129 | a composition is a nonempty ascending list of distinct blocks |
| Sampling.CompositionSize | bud/src/bud_format_qrvideo.rs:117-121 | of one or two blocks all are combined; of more at least two, at most 24 and never all |
| Sampling.EverySizeIsDrawn | bud/src/bud_format_qrvideo.rs:110-121 | for every number of blocks each size in that range is drawn for some 64-bit drop number |
| KnownAnswers.CompositionOfFour | bud/src/bud_format_qrvideo.rs:107-129 | drop 3 of four blocks combines blocks 0, 1 and 3, after nine draws of which six are rejected |
| Sampling.CompositionByMembers | bud/src/bud_format_qrvideo.rs:107-129 | compositions with the same members are the same |
| Sampling.WaitShrinks | bud/src/bud_format_qrvideo.rs:121-126 | every rejected draw brings the next accepted one nearer |
| LcRng.EveryStateIsReached | bud/src/bud_format_qrvideo.rs:155-160 | the generator runs through all 2^64 states from any start |
| LcRng.EveryOutputIsDrawn | bud/src/bud_format_qrvideo.rs:155-163 | from any state every 64-bit output is drawn at some point |
| Gf8Tables.Gf8.constructor | bud/src/bud_format_erasure.rs:33-52 | the two table loops produce the discrete logarithm and the powers of x |
| Gf8Tables.FillPowers | bud/src/bud_format_erasure.rs:38-45 | the first loop tabulates the first 255 powers and their logarithms |
| Gf8Tables.RepeatPowers | bud/src/bud_format_erasure.rs:46-50 | the second loop repeats the run of powers |
| Gf8Tables.Turn | bud/src/bud_format_erasure.rs:41-43 | the 16-bit shift and reduction by 0x11D is multiplication by x |
| Gf8Tables.Gf8.Mul | bud/src/bud_format_erasure.rs:54-60 | the table product is the polynomial product modulo x^8 + x^4 + x^3 + x^2 + 1 |
| Gf8Tables.Gf8.Inv | bud/src/bud_format_erasure.rs:62-67 | an inverse exists exactly for nonzero bytes, and multiplies to 1 |
| Gf256.XtimeReduces | bud/src/bud_format_erasure.rs:41-42 | multiplication by x with the top bit set is a shift and an exclusive or with 0x1D |
| Gf256.MulAddLeft | bud/src/bud_format_erasure.rs:54-60 | the product distributes over exclusive or on the left |
| Gf256.MulAddRight | bud/src/bud_format_erasure.rs:54-60 | the product distributes over exclusive or on the right |
| Gf256.MulCommutes | bud/src/bud_format_erasure.rs:54-60 | the product is commutative |
| Gf256.MulAssociates | bud/src/bud_format_erasure.rs:54-60 | the product is associative |
| Gf256.MulOne | bud/src/bud_format_erasure.rs:54-60 | 1 is neutral |
| Gf256.PowerAdd | bud/src/bud_format_erasure.rs:58-59 | exponents of x add up |
| Gf256Log.PowerInjective | bud/src/bud_format_erasure.rs:38-45 | the 255 powers of x are different |
| Gf256Log.EveryByteIsAPower | bud/src/bud_format_erasure.rs:38-45 | every nonzero byte is a power of x |
| Gf256Log.LogIsUnique | bud/src/bud_format_erasure.rs:40 | logarithm and power are inverse |
| Gf256Log.PowerWraps | bud/src/bud_format_erasure.rs:46-50 | the powers repeat after 255 |
| Gf256Log.NoZeroDivisors | bud/src/bud_format_erasure.rs:54-60 | a product is zero only if a factor is |
| Gf256Log.MulCancel | bud/src/bud_format_erasure.rs:54-60 | nonzero factors cancel |
| GaussJordan.InvertMatrix | bud/src/bud_format_erasure.rs:171-205 | for every size: a result times the matrix is the identity, without result there is a nonzero vector that the matrix annihilates, and a matrix that repeats a row has no inverse |
| GaussJordan.ColumnKeepsDegenerate | bud/src/bud_format_erasure.rs:180-203 | a column step keeps two rows equal or one row zero on the left |
| GaussJordan.Augment | bud/src/bud_format_erasure.rs:172-179 | the matrix beside the identity |
| GaussJordan.FindPivot | bud/src/bud_format_erasure.rs:181-188 | the first row from the column on with a nonzero entry, if any |
| GaussJordan.ReduceColumn | bud/src/bud_format_erasure.rs:190-202 | swap, scaling and clearing of one column |
| GaussJordan.ScaleRow | bud/src/bud_format_erasure.rs:192-194 | a row times a factor |
| GaussJordan.AddScaledRow | bud/src/bud_format_erasure.rs:197-200 | a row plus a multiple of another |
| GaussJordan.ClearColumn | bud/src/bud_format_erasure.rs:195-202 | all other rows are cleared in the column |
| GaussJordan.RightHalves | bud/src/bud_format_erasure.rs:204 | the right halves of the rows |
| GaussJordan.ColumnStep | bud/src/bud_format_erasure.rs:180-203 | a column step keeps the recorded row combinations and the kernel, and reduces one more column |
| GaussJordan.NoPivot | bud/src/bud_format_erasure.rs:189 | without pivot the column is a combination of the earlier ones, which is a vector of the kernel |
| Cauchy.CauchyKernel | bud/src/bud_format_erasure.rs:85-92 | a Cauchy matrix over any distinct nodes annihilates only zero |
| Erasure.NodesApartIff | bud/src/bud_format_erasure.rs:87-92 | the nodes of all parity rows and data columns are apart iff p <= k <= 128 |
| Erasure.AnyRowsIndependent | bud/src/bud_format_erasure.rs:139-152 | any k different rows of identity and Cauchy matrix annihilate only zero |
| Erasure.GenuineIsRestored | bud/src/bud_format_erasure.rs:153-166 | the inverse of the chosen rows turns genuine shards into the data |
| Erasure.ShardSpelled | bud/src/bud_format_erasure.rs:87-118 | the weights with w[j] times (i xor (k + j)) equal to one exist, are unique, and give the shards of the model and no others |
| Erasure.CauchyMds.New | bud/src/bud_format_erasure.rs:78-83 | a code exists exactly for positive k and p with k + p < 256 |
| Erasure.CauchyMds.Cauchy | bud/src/bud_format_erasure.rs:87-92 | an entry exists iff its nodes differ, and is the nonzero inverse of their sum |
| Erasure.CauchyMds.Parity | bud/src/bud_format_erasure.rs:110-118 | a parity shard is the combination of the data with its Cauchy row |
| Erasure.CauchyMds.ParityShards | bud/src/bud_format_erasure.rs:108-121 | all parity shards, or nothing when nodes meet |
| Erasure.CauchyMds.Encode | bud/src/bud_format_erasure.rs:95-122 | encoding succeeds exactly for k nonempty shards of equal size up to 64 MiB and p <= k <= 128; it keeps the data, and byte b of parity shard i is the sum of the bytes b of all data shards j, each times the weight whose product with i xor (k + j) is one |
| Erasure.CauchyMds.RowMatrix | bud/src/bud_format_erasure.rs:139-152 | the coefficient rows of the chosen shards |
| Erasure.CauchyMds.RowOf | bud/src/bud_format_erasure.rs:142-151 | a unit row for a data shard and a Cauchy row for a parity shard |
| Erasure.CauchyMds.constructor | bud/src/bud_format_erasure.rs:82 | a code with its field tables |
| Erasure.CauchyMds.Combine | bud/src/bud_format_erasure.rs:156-165 | one output shard is a combination of the survivors |
| Erasure.GenuineIsInvertible | bud/src/bud_format_erasure.rs:139-154 | the rows of genuine survivors annihilate only zero |
| Erasure.CauchyMds.Product | bud/src/bud_format_erasure.rs:155-166 | every output shard is the combination of the survivors with a row of the inverse |
| Erasure.CauchyMds.Decode | bud/src/bud_format_erasure.rs:127-168 | too few or uneven survivors give nothing, and neither does an index that repeats among the first k; whatever data the first k survivors are different shards of, in the written-out sense of encoding, exactly that data is returned |
| Erasure.CauchyMds.EncodeThenDecode | bud/src/bud_format_erasure.rs:95-168 | any k different shards of encoded data give it back, and a shard handed in twice among the first k gives nothing |
| Shamir.SplitThenCombine | bud/src/bud_format_shamir.rs:65-133 | for 1 <= k <= 33 and k <= n <= 255: any k different shares of any secret restore it, and a share handed in twice among the first k does not |
| Shamir.OneShareDetermines | bud/src/bud_format_shamir.rs:72-93 | every byte of the secret is the value of any one share plus a number that does not depend on the secret |
| Shamir.NoShareInCommon | bud/src/bud_format_shamir.rs:72-93 | splits of different secrets under one threshold have no share in common |
| Shamir.Split | bud/src/bud_format_shamir.rs:65-95 | refused exactly for k or n out of range; the coefficient array of 32 slots is overrun exactly for k > 33; otherwise every share lies on the polynomials of the secret |
| ShamirCoefficients.StepByBits | bud/src/bud_format_shamir.rs:77-80 | one step of the generator, bit by bit: each word is exclusive-ored with itself shifted left by 13, right by 7 and left by 17 places |
| ShamirCoefficients.StepIsBijection | bud/src/bud_format_shamir.rs:77-80 | the step is a bijection of the 64-bit words, and only zero leads to zero |
| ShamirCoefficients.StatesAreNotZero | bud/src/bud_format_shamir.rs:76-80 | no state of a split is ever zero |
| ShamirCoefficients.FirstCoefficients | bud/src/bud_format_shamir.rs:76-80 | the first coefficients are 238, 55, 223 for byte 0 and 133 for byte 1 |
| ShamirCoefficients.FirstShareDiffers | bud/src/bud_format_shamir.rs:82-93 | with threshold 2 byte 0 of share 1 is byte 0 of the secret plus 238, so the share is not the secret |
| ShamirCoefficients.SharesOfThree | bud/src/bud_format_shamir.rs:82-93 | with threshold 3 the first coefficient weighs the point and the second its square |
| Shamir.Combine | bud/src/bud_format_shamir.rs:98-133 | succeeds exactly for k well-formed shares with different points, and returns the constant terms of whatever polynomials of fewer than k degrees they lie on |
| Shamir.SharesOfSplitAreConsistent | bud/src/bud_format_shamir.rs:65-95 | any selection of shares lies on the polynomials of the split |
| Shamir.FillCoefficients | bud/src/bud_format_shamir.rs:75-80 | the generator loop fills the coefficients |
| Shamir.ValueAt | bud/src/bud_format_shamir.rs:84-90 | the power loop evaluates the polynomial |
| Shamir.SplitByte | bud/src/bud_format_shamir.rs:72-93 | one byte of the secret is shared without touching the others |
| Shamir.NumDen | bud/src/bud_format_shamir.rs:116-123 | the two products of an interpolation weight |
| Shamir.WeightOf | bud/src/bud_format_shamir.rs:115-128 | a weight exists iff its point occurs once |
| Shamir.CombineByte | bud/src/bud_format_shamir.rs:112-131 | a byte is the sum of values times weights |
| Shamir.CombineBytes | bud/src/bud_format_shamir.rs:111-132 | all 32 bytes are interpolated, or nothing when points repeat |
| Lagrange.InterpolationAtZero | bud/src/bud_format_shamir.rs:112-131 | values of a polynomial at as many different points as it has coefficients, times their weights, sum to its value at zero |
| Das.VerifiedMeansIncluded | bud/src/bud_format_das.rs:107-128 | for every hash function: a proof that verifies against the root has as many steps as the tree has levels, carries one of the chunks and, for an index in range, the chunk at that index, unless two different inputs hashed for root and proof have the same digest |
| Das.ProofsVerify | bud/src/bud_format_das.rs:63-128 | for every hash function the siblings of a chunk verify against the root |
| Das.LastChunkVerifiesTwice | bud/src/bud_format_das.rs:37-47 | with an odd number of chunks the last one also verifies under the index one past the end, so the range condition cannot be dropped |
| Das.DasRoot | bud/src/bud_format_das.rs:24-51 | the loop over levels computes the digest of the tree of least height: a chunk is hashed behind leaf tag and 8-byte length, two halves behind the node tag left before right, and a missing right half repeats the left one |
| Das.RootByHalves | bud/src/bud_format_das.rs:24-51 | the level by level root is the recursive digest over halves, for every number of chunks |
| Das.RootOfHalves | bud/src/bud_format_das.rs:38-47 | the root over two lists of 2^m chunks is the hash of node tag, first root and second root |
| Das.Prove | bud/src/bud_format_das.rs:63-104 | a proof exists exactly for indices in range, has the height of the tree as length, and verifies |
| Das.Verify | bud/src/bud_format_das.rs:107-128 | the climb along the path compares with the root |
| Das.NextLevel | bud/src/bud_format_das.rs:36-47 | pairs are hashed together, the odd one with itself |
| Das.HashLeaves | bud/src/bud_format_das.rs:26-32 | tag, length and bytes of every chunk are hashed |
| Das.TopLevel | bud/src/bud_format_das.rs:35-50 | halving ends in a single node after as many steps as the height |
| Structure.StructuralSplit | bud/src/bud_format_container.rs:47-104 | for every content and kind the chunks are the pieces between the cuts of the kind, with their ids |
| Structure.Pieces | bud/src/bud_format_container.rs:47-104 | the pieces of any content make it up, none is empty, and they meet exactly at the cuts of the kind |
| Structure.SplitsUnique | bud/src/bud_format_container.rs:47-104 | there is only one list of pieces that makes up the content and meets exactly at the cuts |
| Structure.SplitJson | bud/src/bud_format_container.rs:61-89 | records are cut exactly before commas at depth one outside strings |
| JsonRecords.ArrayRecords | bud/src/bud_format_container.rs:61-89 | an array of any JSON values, with escapes in strings, nested brackets and white space, is cut into the bracket with the first value, every comma with its value, and the last of them with the closing bracket; values nested 2^32 deep are excluded, where the 32-bit depth comes around |
| JsonRecords.ObjectRecords | bud/src/bud_format_container.rs:61-89 | the same for the members of an object |
| JsonRecords.QuietJson | bud/src/bud_format_container.rs:68-87 | scanning a JSON value below the top level leads back to where it began and meets no cut |
| Structure.SplitLines | bud/src/bud_format_container.rs:91-101 | lines are cut exactly behind line feeds |
| Structure.SplitFixed | bud/src/bud_format_container.rs:117-127 | blocks are cut exactly at multiples of 65536 |
| PlainCuts.CutsByFormat | bud/src/bud_format_container.rs:47-104 | for every format: CSV, logs and text are cut into lines, JSON into records or, if it is not UTF-8, into blocks, and everything else into blocks |
| PlainCuts.LinesOfPieces | bud/src/bud_format_container.rs:91-101 | every piece but the last ends with its only line feed, and the last has none before its end |
| PlainCuts.BlocksOfPieces | bud/src/bud_format_container.rs:117-127 | every piece but the last has 65536 bytes, and the last has no more |
| Structure.StructuralJoin | bud/src/bud_format_container.rs:141-148 | joining is concatenation |
| Structure.StructuralSplitCompact | bud/src/bud_format_container.rs:1160-1190 | for every content the chunks are the structural pieces merged from the front, and they make up the content |
| Structure.Compact | bud/src/bud_format_container.rs:1165-1189 | the accumulator loop computes the merge from the front: each output piece is the longest run of input pieces, at least one, that fits the threshold |
| Structure.MergedIsCompacted | bud/src/bud_format_container.rs:1156-1190 | each merged piece is a run of input pieces, several only where they fit the threshold together, and no two neighbours would fit it |
| Structure.FirstRun | bud/src/bud_format_container.rs:1170-1184 | a run that fits, or a single piece, is a merged piece when the next one would be too much |
| Structure.TwoPieces | bud/src/bud_format_container.rs:1170-1184 | two pieces are merged exactly if they fit the threshold together |
| Structure.MergedOf | bud/src/bud_format_container.rs:1156-1190 | the merged pieces of any content make it up |
| Structure.CompactedConcat | bud/src/bud_format_container.rs:1156-1190 | merging loses nothing and leaves no empty piece |
| Structure.LooseCount | bud/src/bud_format_container.rs:1156-1190 | merging bounds the number of pieces: two neighbours always hold more than the threshold |
| Structure.CompactedSizes | bud/src/bud_format_container.rs:1167-1189 | no piece grows beyond a limit at or above the threshold unless an input piece was beyond it |
| Structure.ContentInputInjective | bud/src/bud_format_container.rs:129-135 | different contents have different hash inputs |
| Container.Decode | bud/src/bud_format_container.rs:480-537 | for every byte string: a file is returned iff the bytes are an image of that file and the file is within the limits with right ids, counts and root digest |
| Container.EncodeThenDecode | bud/src/bud_format_container.rs:464-537 | an encoded file decodes to itself |
| Container.ImageIsNearlyCanonical | bud/src/bud_format_container.rs:480-537 | whatever decodes to a file has the length of its encoding and differs from it at most in bytes 8, 9 and 11 |
| Container.RootBindsChunks | bud/src/bud_format_container.rs:566-584 | files with the same root digest have the same chunks unless two different hashed inputs collide |
| Container.NewWithCodec | bud/src/bud_format_container.rs:445-462 | a file is made exactly from up to a million chunks of up to 64 MiB and 4 GiB together, with the header that belongs to them |
| Container.Encode | bud/src/bud_format_container.rs:464-475 | header, preamble and one record a chunk |
| WireFormats.FileIsLaidOut | bud/src/bud_format_container.rs:319-475 | a file byte by byte: mark, format number, root digest over all ids, number and size of the chunks, packing, number again, and size, id and bytes of every chunk |
| WireFormats.FileIsRead | bud/src/bud_format_container.rs:480-540 | bytes are taken for a file exactly if they are laid out so, up to the number of an unknown format and one byte |
| WireFormats.ContentIdLayout | bud/src/bud_format_container.rs:129-135 | an id is the hash of the tag, the 8-byte length and the bytes |
| Container.DecodeChunks | bud/src/bud_format_container.rs:495-528 | the loop over records reads them all, uses up all bytes and keeps within the limits, or fails |
| Container.ReadChunksIff | bud/src/bud_format_container.rs:500-528 | reading records succeeds iff the bytes are the records of good chunks |
| Container.HeaderFromIff | bud/src/bud_format_container.rs:347-363 | a header is read iff the bytes are its image |
| Container.HeaderBytesImage | bud/src/bud_format_container.rs:337-345 | the written header is an image of the header |
| Container.CodecNumber | bud/src/bud_format_container.rs:181-207 | format numbers are read back as the format |
| Pipe.StoreThenRestore | bud/src/bud_format_pipe.rs:88-94 | for every content, threshold, format detector, UTF-8 test and hash: whatever is stored comes back |
| Pipe.StoreChunks | bud/src/bud_format_container.rs:445-475 | chunks become the bytes of a file of the given format, written out byte by byte, exactly within the limits of a million chunks, 64 MiB each and 4 GiB in all |
| Pipe.UnpackChunk | bud/src/bud_format_container.rs:546-559 | a chunk unpacks as its codec says |
| Pipe.CompressAll | bud/src/bud_format_container.rs:421-427 | every chunk is packed by itself |
| Pipe.RestoreCompressed | bud/src/bud_format_container.rs:543-562 | packed chunks restore to their content iff all of them survive packing, and to nothing otherwise |
| Pipe.StoreWithMin | bud/src/bud_format_pipe.rs:88-94 | storing succeeds exactly when the merged pieces of the content are within the limits of the container, and gives the bytes of the file of the detected format with exactly these pieces |
| Pipe.Store | bud/src/bud_format_pipe.rs:83-85 | with the threshold of 64 KiB storing succeeds exactly up to 4 GiB and pieces of 64 MiB: the limit of a million chunks is never the reason |
| Pipe.FewChunks | bud/src/bud_format_pipe.rs:26 | merging to more than 8 KiB keeps four gigabytes within a million chunks |
| Pipe.StoreCompressedThenRestore | bud/src/bud_format_pipe.rs:103-109 | storing compressed succeeds exactly when the packed merged pieces are within the limits, and the content comes back iff then no merged piece needs a code of more than 32 bits; it always does if every piece is shorter than 9227465 bytes |
| Pipe.StoreCompressedWithMin | bud/src/bud_format_pipe.rs:103-109 | storing compressed succeeds exactly when the packed merged pieces are within the limits, and gives the bytes of the file of the detected format with exactly these pieces packed |
| Pipe.StoreCompressed | bud/src/bud_format_pipe.rs:98-100 | the same with the default threshold |
| Pipe.StoredAndLost | bud/src/bud_format_pipe.rs:96-109 | one line of 14930351 characters is stored compressed as text, with any threshold, and does not come back |
| Pipe.PackedLimits | bud/src/bud_format_container.rs:421-427 | packed chunks are within the limits of the container iff the sizes of their packed forms are |
| Pipe.Restore | bud/src/bud_format_pipe.rs:153-156 | restoring gives the joined chunks of the file whose image the bytes are |
| Pipe.RestoreOriginal | bud/src/bud_format_container.rs:543-562 | chunks are unpacked in order and joined, or nothing is returned when one does not unpack |
| FastCdc.SplitData | bud/src/bud_format_fastcdc.rs:166-204 | refused exactly for empty data or sizes out of order; otherwise the chunks join to the data, keep the size limits, carry their ids, and each ends where it first may |
| FastCdc.SplitCutsByContent | bud/src/bud_format_fastcdc.rs:184-202 | a chunk may end at the maximum, or from the minimum on where the hash of its bytes up to the next one is divisible by 2 to the binary logarithm of the average; every chunk ends at the first such place, and the last one with the data |
| FastCdc.CutsUnique | bud/src/bud_format_fastcdc.rs:184-202 | only one list of chunks ends that way |
| FastCdc.RollIsHash | bud/src/bud_format_fastcdc.rs:185 | the rolling hash is the recurrence rotate, multiply, add on 64-bit words |
| FastCdc.CutBitsIs | bud/src/bud_format_fastcdc.rs:207-211 | the mask has as many bits as the binary logarithm of the average, at least 1, and all 64 from 2^63 on |
| FastCdc.SplitLosesNothing | bud/src/bud_format_fastcdc.rs:214-221 | joining the chunks gives the data |
| FastCdc.SplitKeepsSizes | bud/src/bud_format_fastcdc.rs:184-202 | no chunk is empty or above the maximum, and only the last may be below the minimum |
| FastCdc.SuffixChunksAgree | bud/src/bud_format_fastcdc.rs:184-196 | two contents with a common ending that both cut where it begins are chunked alike from there on |
| Multifile.TenantMultifileStore.AddFile | bud/src/bud_format_multifile.rs:52-72 | blocks enter the pool once, files and savings are recorded, and refused files change nothing |
| Multifile.TenantMultifileStore.Restore | bud/src/bud_format_multifile.rs:75-83 | after any run of additions every accepted file restores, to its own bytes when no two different blocks share an id |
| Multifile.TenantMultifileStore.IdsStayDistinct | bud/src/bud_format_multifile.rs:60-66 | after any run the ids of the pool are different |
| Multifile.TenantMultifileStore.AccountsBalance | bud/src/bud_format_multifile.rs:57-71 | after any run, without collisions, accepted bytes are pool bytes plus saved bytes |
| Multifile.TenantMultifileStore.constructor | bud/src/bud_format_multifile.rs:46-48 | a new store is empty |
| Multifile.FindChunk | bud/src/bud_format_multifile.rs:62 | the first block with the id |
| Multifile.DeltaRoundTrip | bud/src/bud_format_multifile.rs:96-139 | applying the delta of two versions gives the new one iff it ends on a block boundary or with a short block that has not changed, and nothing otherwise |
| Multifile.ShortTailIsLost | bud/src/bud_format_multifile.rs:125-130 | a file that grows by less than a block is lost in its delta |
| Multifile.AddDelta | bud/src/bud_format_multifile.rs:96-112 | one flag a block, and the block itself where it changed |
| Multifile.DeltaOfSame | bud/src/bud_format_multifile.rs:101-105 | the delta of an unchanged file is a zero for every block |
| Multifile.DeltaOfNew | bud/src/bud_format_multifile.rs:106-110 | the delta of a new file is a one and the block, for every block |
| Multifile.ApplyDelta | bud/src/bud_format_multifile.rs:115-139 | flags are followed block by block, and damaged deltas give nothing |

## Left out

- HuffmanPacking.PackBody: says which bits the body holds for codes of up to 57 bits only, and how long it is for all. Beyond that a 64-bit word no longer holds a code and seven waiting bits; it takes more than 10^12 input bytes, and such inputs never unpack.
- Huffman.Compress: the same limit on the bits of the body; magic, version, length, table and size are described for all inputs.
- HuffmanTables.AssignCodes: says nothing about codes of more than 63 bits, which no longer fit the running 64-bit code and need more than 10^13 input bytes.
- Multifile.TenantMultifileStore.Restore: the bytes are promised only when no two different blocks that were added share an id; with a collision the first block wins.
- Multifile.TenantMultifileStore.AccountsBalance: the same condition; counters are unbounded where the program has 64 bits.
- Das.Verify: cryptographic strength of SHA3 is not modelled; collisions are named, not excluded.
- Das.DasRoot: the empty list of chunks, on which the program stops with an index error, is excluded.
- Elimination.ReduceMasks: a row's bit set is a set of numbers; its layout in 64-bit words is not modelled.
- JsonRecords.ArrayRecords: says nothing about text that is not JSON, nor about values nested 2^32 deep; Structure.SplitJson covers both by the depth of the scan.
- Structure.SplitJson: scans bytes where the program scans characters. In valid UTF-8 the bytes of other characters are never quotes, brackets, commas or backslashes, so the cuts are the same; UTF-8 decoding itself is a parameter.
- Zstd: `new_zstd`, `store_zstd`, `uret_turev` and the columnar pipeline rest on a foreign library. A zstd chunk is unpacked by an arbitrary function.
- `detect` of the pipeline: a heuristic that only chooses where content is cut; the theorems hold for every detector.
- `GEAR_TABLE`: the theorems hold for every table of 128 factors.
- `to_blob` and `from_blob` of the tenant store, share blobs, record hashes, `dedup_ratio`, `multiplier` and other statistics: fixed layouts and floating point.
- Expert candidates, catalogues, policies, economics and the other format modules: one-branch decisions or tables of measured ratios.
- `DasSampler`: sampling of indices for availability checks.
