# Verified models of the behavioral model's core

A Dafny model of the parts of the P4 behavioral model where the arithmetic, the data
structures or the state are hardest to get right, with proofs that they do what they are for.
Methods follow the C and C++ code step by step where it changes state; what each of
them computes is stated by functions, and what those mean is proved as lemmas.

* **The longest-prefix-match trie** (`Bits`, `TrieNode`, `RouteTable`, `LpmTrie`, `TrieRuns`). A linked tree
  of nodes with parent pointers, sorted branch and prefix vectors and binary search, proved
  against a finite map from bit strings to values. Insert, delete, retrieve and has_prefix refine
  the map; lookup answers the longest stored prefix of the key; the pruning loop leaves exactly
  the nodes in use.
* **The hash and checksum functors** (`Words`, `Crc`, `CrcFrames`, `InternetChecksum`, `Toeplitz`). The
  table-driven CRC is polynomial long division, streaming, affine, and detects every burst no
  longer than its width; the 64-bit deferred-carry checksum is the ones' complement sum of
  RFC 1071; the lowest-set-bit Toeplitz loop is the sliding-window definition.
* **The action profile** (`Handles`, `UIntSets`, `ProfileModel`, `ActionProfile`, `ProfileRefinement`). A state machine
  of members, groups, reference counts, handles and a group selector's shadow copy, with an
  invariant kept by every run of operations. `ProfileModel` holds the states and the
  invariant, `ActionProfile` the objects whose methods are its steps, and `ProfileRefinement` what they
  show to a user: plain maps of members and groups.
* **Smaller machines.** `RoundRobin` (both round-robin functors), `Ageing` (the sweep), `MatchKey`
  (the match key codec and the priority inverter), `ActionParams` (the flat encoding of action
  parameters and the shared temporary registers).

## Where the code falls short of what one would expect

Each of these is a lemma or a contract with the exact condition.

* `HandleMgr::set_handle` on the handle just past a full bit vector leaves the next-unused index on
  the handle it claimed, and the next allocation hands it out again (`Handles.ClaimThenAllocate`,
  `Handles.ClaimAscending`). Deserializing
  a profile that has member 0 starts with exactly that call.
* `ActionProfile::reset_state` does not clear the group handles: the profile stays consistent if and
  only if no group was live (`ProfileModel.ResetKeepsIff`).
* A selector installed while some live group has members does not know them: it mirrors the groups if
  and only if all are empty (`ActionProfile.InstallIff`).
* Reference counts are 32-bit and wrap: a member or group in use can be deleted if and only if the number
  of its references is a non-zero multiple of 2^32 (`ProfileModel.DeleteMemberRightIff`,
  `ProfileModel.DeleteGroupRightIff`).
* The round-robin counter is narrowed to 32 bits before the modulo: a round over s members is even if
  and only if the narrowed counter does not wrap in it or s divides 2^32 (`RoundRobin.EachOnceIff`).
* `cksum16` adds an odd last byte as a host integer: on a big-endian host the result, and the sum of an
  updated header, is right if and only if that byte is zero (`InternetChecksum.Cksum16`,
  `InternetChecksum.UpdatedSumsToAllOnes`).
* `IPv4Checksum::verify_` compares bytes, so it refuses a stored 0xFFFF, the other zero of ones'
  complement, unless the rest of the header is zero (`InternetChecksum.AcceptedIffAllOnes`).
* An entry that stays expired is notified at every second sweep, not once (`Ageing.StaysExpired`).
* The outer parameter list of an action and its vectors number their temporary registers separately,
  so an outer expression shares its register with one inside a vector (`ActionParams.SharedRegisterIff`).
* The builder's assertions fail if and only if strings are pushed both outside and inside the slices
  (`ActionParams.RoundTrip`).

## Conventions

A machine word in `Words` is a sequence of bits of fixed length, most significant first; C++ shifts
truncate to that length. Loads of 16, 32 and 64 bits take the host byte order as a parameter, and both
orders are covered. A read one past the end of a prefix, which the trie code does when the length is a
multiple of 8 and ends the buffer, returns an arbitrary byte. What a sweep or a hash reads from the rest
of the switch is a parameter. A locked section is one step. An assertion of the code is a proof
obligation, and so is the range of every index.

## Model

| member | source | states |
|---|---|---|
| Bits.ShiftDropsBits | src/bf_lpm_trie/bf_lpm_trie.c:293-296 | shifting a byte right by 8 - n keeps exactly its first n bits |
| RouteTable.PrefixBits | src/bf_lpm_trie/bf_lpm_trie.c:279-296 | what a prefix stands for: the first prefix_length bits of its buffer |
| TrieNode.CmpIsRankOrder | src/bf_lpm_trie/bf_lpm_trie.c:172-177 | the two-key comparison of prefixes is a strict total order: the sign of prefix_cmp is the order of one rank, longer prefixes first |
| TrieNode.BranchCount | src/bf_lpm_trie/bf_lpm_trie.c:41-45 | a strictly sorted branch vector has at most 256 elements, so its 16-bit size cannot overflow |
| TrieNode.PrefixCount | src/bf_lpm_trie/bf_lpm_trie.c:53-57 | a strictly sorted prefix vector has at most 255 elements (1 + 2 + ... + 128), so its 16-bit size cannot overflow |
| TrieNode.BisectBranches | src/bf_lpm_trie/bf_lpm_trie.c:101-117 | binary search of the branch vector: the index of the byte, or the place where it keeps the vector sorted |
| TrieNode.BisectPrefixes | src/bf_lpm_trie/bf_lpm_trie.c:180-198 | binary search of the prefix vector, in the order longer first, then smaller key |
| TrieNode.Node.GetNextNode | src/bf_lpm_trie/bf_lpm_trie.c:101-117 | the child under a byte if there is one, else null |
| TrieNode.Node.SetNextNode | src/bf_lpm_trie/bf_lpm_trie.c:119-146 | a byte without a branch gains exactly this one, a byte that has one keeps it, and the vector stays strictly sorted |
| TrieNode.Node.DeleteBranch | src/bf_lpm_trie/bf_lpm_trie.c:148-170 | the branch map loses exactly that entry, and tells whether it was there |
| TrieNode.Node.InsertPrefix | src/bf_lpm_trie/bf_lpm_trie.c:180-212 | the prefix map gains or overwrites exactly one entry, and the vector stays strictly sorted |
| TrieNode.Node.GetPrefix | src/bf_lpm_trie/bf_lpm_trie.c:214-235 | found if and only if the slot is in use, with its value |
| TrieNode.Node.GetEmptyPrefix | src/bf_lpm_trie/bf_lpm_trie.c:236-241 | the slot of length 0 is found by looking at the last element alone |
| TrieNode.Node.DeletePrefix | src/bf_lpm_trie/bf_lpm_trie.c:244-270 | the prefix map loses exactly that slot |
| TrieNode.Node.ScanPrefixes | src/bf_lpm_trie/bf_lpm_trie.c:351-359 | the first hit of the scan starts the byte and is the longest stored slot that does; no hit means that none does |
| TrieNode.FirstHitIsLongest | src/bf_lpm_trie/bf_lpm_trie.c:351-359 | in the order of the prefix vector no later slot is longer than an earlier one |
| RouteTable.RouteOfBits | src/bf_lpm_trie/bf_lpm_trie.c:279-296 | splitting a prefix into whole bytes and a shifted remainder denotes exactly its first prefix_length bits: bits past the length never matter |
| RouteTable.RouteBitsInjective | src/bf_lpm_trie/bf_lpm_trie.c:279-296 | two stored prefixes that spell the same bits are the same node and slot |
| RouteTable.InsertDenotes | src/bf_lpm_trie/bf_lpm_trie.c:272-296 | writing the route of a prefix writes one entry of the map from bit strings to values |
| RouteTable.RemoveDenotes | src/bf_lpm_trie/bf_lpm_trie.c:369-390 | dropping the route of a prefix drops one entry of that map and no other |
| RouteTable.MatchesIsPrefix | src/bf_lpm_trie/bf_lpm_trie.c:332-359 | the byte-wise test of the lookup is the bit-wise one: a stored prefix matches if and only if it starts the key |
| RouteTable.LongestMatchUnique | src/bf_lpm_trie/bf_lpm_trie.c:332-367 | the longest match is unique, so the answer of a lookup is determined |
| RouteTable.DeeperHitIsBetter | src/bf_lpm_trie/bf_lpm_trie.c:343-362 | a hit in a deeper node overwrites every shallower one and is at least as long as each |
| RouteTable.BestIsLongestMatch | src/bf_lpm_trie/bf_lpm_trie.c:332-367 | the best hit over all depths is the longest stored bit string that starts the key |
| LpmTrie.GrowKeepsTree | src/bf_lpm_trie/bf_lpm_trie.c:119-146 | linking a new node keeps all links, parents and the table, and leaves at most the new node empty |
| LpmTrie.ShrinkKeepsTree | src/bf_lpm_trie/bf_lpm_trie.c:393-402 | unlinking an empty node keeps all links, parents and the table, and leaves at most its parent empty |
| LpmTrie.Trie.constructor | src/bf_lpm_trie/bf_lpm_trie.c:72-84 | a new trie is valid and empty |
| LpmTrie.Trie.Insert | src/bf_lpm_trie/bf_lpm_trie.c:272-296 | the map afterwards is the map before with this one bit prefix added or overwritten; the tree invariant holds |
| LpmTrie.Trie.RetrieveValue | src/bf_lpm_trie/bf_lpm_trie.c:298-323 | found if and only if exactly this bit prefix is stored, with its value |
| LpmTrie.Trie.HasPrefix | src/bf_lpm_trie/bf_lpm_trie.c:326-330 | true if and only if exactly this bit prefix is stored |
| LpmTrie.Trie.Lookup | src/bf_lpm_trie/bf_lpm_trie.c:332-367 | for every key of the full width, the value of the longest stored bit prefix of the key; not found if and only if no stored prefix starts it |
| LpmTrie.Trie.Delete | src/bf_lpm_trie/bf_lpm_trie.c:369-406 | true if and only if the prefix was present; with auto_shrink exactly that prefix is gone, without it nothing is; the tree invariant holds |
| LpmTrie.Trie.Prune | src/bf_lpm_trie/bf_lpm_trie.c:393-402 | the upward loop terminates, never frees the root, and ends with no empty node below the root |
| LpmTrie.Trie.VectorsFit | src/bf_lpm_trie/bf_lpm_trie.c:41-57 | in every valid trie both vectors of every node fit their 16-bit sizes |
| LpmTrie.Trie.NodesAreThePathsInUse | src/bf_lpm_trie/bf_lpm_trie.c:369-406 | a node exists if and only if it is the root or lies on the way to a stored prefix: nothing is kept and nothing is missing |
| TrieRuns.StoresNext | src/bf_lpm_trie/bf_lpm_trie.c:272-406 | one more insert or delete leaves stored exactly what the last command about each bit string says |
| TrieRuns.Run | src/bm_sim/lpm_trie.h:36-70 | after every sequence of inserts and deletes on a shrinking trie exactly those bit strings are stored whose last command is an insert, with its value |
| TrieRuns.RunThenLookup | src/bm_sim/lpm_trie.h:62-85 | after every such run a lookup answers the longest of them that starts the key, and finds nothing if and only if none does |
| Words.BitsOfToNat | src/bm_sim/calculations.cpp:142-157 | the bits of the number a word stands for are the word |
| Words.ToNatOfBits | src/bm_sim/calculations.cpp:142-157 | the number that the low n bits of a number below 2^n stand for is that number |
| Crc.FeedDivides | src/bm_sim/calculations.cpp:262-280 | shifting a message bit by bit through the register computes the remainder of polynomial long division |
| Crc.FeedAtOnce | src/bm_sim/calculations.cpp:240-246 | adding the next bits to the top of the register at once is the same as feeding them one at a time |
| Crc.TableStep | src/bm_sim/calculations.cpp:240-246 | one table look-up does the work of eight turns of the register, and its index is below 256 |
| Crc.ByteOnBottom | src/bm_sim/calculations.cpp:241-245 | the index the loop computes at word width, reflected or not, is the 8-bit one |
| Crc.Reflect | src/bm_sim/calculations.cpp:142-157 | the loop reverses the low nBits bits of the word |
| Crc.CrcCustom.constructor | src/bm_sim/calculations.cpp:229-232 | the table of a new functor belongs to its configuration |
| Crc.CrcCustom.RecomputeCrcTable | src/bm_sim/calculations.cpp:262-280 | entry d is dividend d shifted through eight turns of the register |
| Crc.CrcCustom.UpdateConfig | src/bm_sim/calculations.cpp:252-259 | table and configuration change together |
| Crc.CrcCustom.Compute | src/bm_sim/calculations.cpp:234-250 | the table-driven loop returns the CRC defined by long division, for every width of at least 8, polynomial, initial value, final value, both reflections and every byte string |
| Crc.MessageBitAt | src/bm_sim/calculations.cpp:240-244 | bit i of the message is bit i % 8 of byte i / 8, counted from the lowest when the data are reflected and from the highest otherwise |
| Crc.CrcOfNothing | src/bm_sim/calculations.cpp:239-249 | the CRC of an empty buffer is the initial remainder with the final value added, reversed or not |
| Crc.FeedConcat | src/bm_sim/calculations.cpp:240-246 | streaming: processing a and then b from the remainder left by a is processing a followed by b |
| Crc.FeedLinear | src/bm_sim/calculations.cpp:240-246 | the register is linear over GF(2) in its start value and in the message |
| Crc.CrcAffine | src/bm_sim/calculations.cpp:234-250 | for messages of one length crc(x) ^ crc(y) ^ crc(0) = crc(x ^ y), through the reflections and the final value |
| Crc.BurstRemainder | src/bm_sim/calculations.cpp:262-280 | under an odd generator a burst of at most w bits never leaves remainder zero |
| Crc.BurstDetected | src/bm_sim/calculations.cpp:234-250 | under an odd generator two messages that differ in a burst of at most w bits have different CRCs |
| Crc.DefaultsDetectBursts | src/bm_sim/calculations.cpp:189-221 | all four default configurations have odd generators, so the property above holds of each |
| Crc.Crc8Is | src/bm_sim/calculations.cpp:189-190 | the 8-bit functor starts with x^8 + x^2 + x + 1, all initial and final bits clear, no reflection |
| Crc.Crc16Is | src/bm_sim/calculations.cpp:199-200 | the 16-bit functor starts with x^16 + x^15 + x^2 + 1, all initial and final bits clear, both reflections |
| Crc.Crc32Is | src/bm_sim/calculations.cpp:209-210 | the 32-bit functor starts with exactly the generator terms of section 3.2.9 of IEEE 802.3, all initial and final bits set, both reflections |
| Crc.Crc64Is | src/bm_sim/calculations.cpp:219-221 | the 64-bit functor starts with x^64 + x^4 + x^3 + x + 1, all initial and final bits clear, both reflections |
| CrcFrames.FrameHasResidue | src/bm_sim/calculations.cpp:234-250 | frame checking as in section 3.2.9 of IEEE 802.3: the CRC of a message followed by its own CRC is one constant of the configuration, for every message |
| CrcFrames.FrameAcceptedIff | src/bm_sim/calculations.cpp:234-250 | a message and a trailer have the residue as CRC if and only if the trailer is the CRC of the message |
| CrcFrames.FrameBurstDetected | src/bm_sim/calculations.cpp:234-250 | a frame damaged by one burst of at most w bits is never accepted, in the message, in the CRC or across the two |
| CrcFrames.DefaultsCanFrame | src/bm_sim/calculations.cpp:189-221 | all four default configurations frame messages: equal reflections, whole bytes, an odd generator |
| InternetChecksum.OnesSumCarries | src/bm_sim/calculations.cpp:311-355 | the folded ones' complement sum of sections 1 and 2 of RFC 1071 is the plain sum of the words less a multiple of 65535, one for each carry, and zero only with it |
| InternetChecksum.ClosedForm | src/bm_sim/calculations.cpp:344-352 | the folded sum S is 0 when the sum n is 0 and (n - 1) mod 65535 + 1 otherwise |
| InternetChecksum.AddRepresents | src/bm_sim/calculations.cpp:319-343 | adding a word with its deferred carry keeps the accumulator congruent to the sum, for every word |
| InternetChecksum.FoldsRepresent | src/bm_sim/calculations.cpp:344-352 | folding 64 to 32 to 16 bits keeps the residue and keeps nonzero sums nonzero |
| InternetChecksum.SwapRepresents | src/bm_sim/calculations.cpp:353-353 | swapping the bytes of a sum is summing byte-swapped words: the byte order independence of section 2(B) of RFC 1071 |
| InternetChecksum.LittleSum | src/bm_sim/calculations.cpp:319-343 | on a little-endian host the sum of the words read is congruent to the sum of the byte-swapped network words, odd lengths included |
| InternetChecksum.FoldedSum | src/bm_sim/calculations.cpp:313-352 | the 8-byte loop, the 4, 2 and 1 byte tails and both folds return the folded sum of the 16-bit host words of the whole buffer |
| InternetChecksum.Cksum16 | src/bm_sim/calculations.cpp:311-355 | the result is the RFC 1071 checksum of the buffer on a little-endian host for every length, and on a big-endian host for every even length or zero last byte |
| InternetChecksum.Cksum16Host | src/bm_sim/checksums.cpp:43-85 | the copy without the byte swap returns the complement of the folded host sum |
| InternetChecksum.HostIsNetwork | src/bm_sim/calculations.cpp:311-355 | after complement and byte swap the host-order sum is the big-endian checksum |
| InternetChecksum.OddByteMatters | src/bm_sim/calculations.cpp:339-343 | on a big-endian host the result for an odd length is right if and only if the last byte is zero |
| InternetChecksum.HeaderChecksum | src/bm_sim/checksums.cpp:181-183 | the checksum both methods compute is over the header with its checksum bytes cleared |
| InternetChecksum.Update | src/bm_sim/checksums.cpp:175-186 | an invalid header is untouched; in a valid one only bytes 10 and 11 change, to the expected checksum |
| InternetChecksum.Verify | src/bm_sim/checksums.cpp:188-201 | accepts if and only if the header is invalid or the stored bytes are the expected checksum |
| InternetChecksum.UpdatedIsAccepted | src/bm_sim/checksums.cpp:175-201 | after update_ verify_ accepts, for every header and either byte order |
| InternetChecksum.UpdatedSumsToAllOnes | src/bm_sim/checksums.cpp:175-186 | after update_ the ones' complement sum of the whole header is 0xFFFF, as section 3.1 of RFC 791 requires, if and only if the host is little-endian, the length even or the last byte zero |
| InternetChecksum.AcceptedIffAllOnes | src/bm_sim/checksums.cpp:188-201 | on every host and for every length verify_ accepts exactly the headers that sum to all ones, an odd last byte taken as the host takes it, except that it refuses a stored 0xFFFF (the other zero) unless the rest is zero |
| InternetChecksum.AcceptedSumsToAllOnes | src/bm_sim/checksums.cpp:188-201 | an accepted header sums to all ones if and only if the host sums like the network |
| InternetChecksum.AllOnesAlike | src/bm_sim/checksums.cpp:70-74 | the network's sum and the host's agree when the last byte does not matter, and cannot both be all ones when it does |
| Toeplitz.HashConcat | src/bm_sim/calculations.cpp:427-440 | the sliding-window hash of a followed by b is the hash of a combined with the hash of b at the window where a ends |
| Toeplitz.HashLinear | src/bm_sim/calculations.cpp:408-443 | for inputs of one length the hash of x ^ y is hash(x) ^ hash(y) |
| Toeplitz.HashClearBit | src/bm_sim/calculations.cpp:432-439 | clearing one set bit takes exactly its key window out of the hash |
| Toeplitz.DecrementFlips | src/bm_sim/calculations.cpp:433-434 | subtracting one clears the lowest set bit and keeps everything above it |
| Toeplitz.ClearsLowest | src/bm_sim/calculations.cpp:432-433 | x & (x - 1) is x without its lowest set bit: the inner loop loses one bit a turn |
| Toeplitz.WindowFromWords | src/bm_sim/calculations.cpp:430-437 | the two shifted key words joined are the 32-bit window of the cyclically repeated key |
| Toeplitz.EmitAsInteger | src/bm_sim/calculations.cpp:366-378 | the bytes in network order on top, zeros below |
| Toeplitz.InputWords | src/bm_sim/calculations.cpp:409-421 | the words are the input bits, the last one padded with zeros |
| Toeplitz.ToeplitzHash.constructor | src/bm_sim/calculations.cpp:404-406 | the key of a new functor is 32 zero bits |
| Toeplitz.ToeplitzHash.UpdateKey | src/bm_sim/calculations.cpp:445-462 | rejects exactly the keys that are shorter than 4 bytes or not made of 4-byte groups, and keeps the old key then |
| Toeplitz.ToeplitzHash.HashWord | src/bm_sim/calculations.cpp:428-440 | the lowest-set-bit loop terminates and adds the windows of all set bits of one word |
| Toeplitz.ToeplitzHash.Compute | src/bm_sim/calculations.cpp:408-443 | for every key and input the result is the XOR, over all set input bits, of the key window that starts at the bit, the key repeated cyclically |
| Handles.SmallestFreeUnique | include/bm/bm_sim/handle_mgr.h:147-161 | the handle that allocation must return is determined by the set of handles in use |
| Handles.FindUnsetNext | include/bm/bm_sim/dynamic_bitset.h:127-135 | the first unset bit after an index; when there is none, the size of the bit set, or npos exactly when the last word is full or the index is the last |
| Handles.HandleMgr.GetHandle | include/bm/bm_sim/handle_mgr.h:147-161 | returns the smallest unused handle and adds it to the set; the internal assertion holds |
| Handles.HandleMgr.ReleaseHandle | include/bm/bm_sim/handle_mgr.h:163-169 | 0 if and only if the handle was in use; exactly that handle is freed |
| Handles.HandleMgr.SetHandle | include/bm/bm_sim/handle_mgr.h:171-183 | adds the handle, in every state the manager can be in; the next-unused index moves only when it is the handle claimed, and a right index stays right if and only if it is not the case that every bit is set and the handle is the one just past them |
| Handles.HandleMgr.ValidHandle | include/bm/bm_sim/handle_mgr.h:189-194 | membership in the set of handles in use |
| Handles.HandleMgr.Clear | include/bm/bm_sim/handle_mgr.h:196-199 | no handle is in use |
| Handles.ClaimThenAllocate | include/bm/bm_sim/handle_mgr.h:147-183 | claiming a handle and then allocating hands out a handle in use in exactly that case |
| Handles.ClaimAscending | include/bm/bm_sim/handle_mgr.h:147-183 | handles claimed in ascending order from 0 on an empty manager are all in use, and the next allocation returns 0 again |
| UIntSets.Add | include/bm/bm_sim/ras.h:51-55 | adds exactly the element, grows by one if and only if it was new, and stays ascending |
| UIntSets.Remove | include/bm/bm_sim/ras.h:57-61 | removes exactly the element, shrinks by one if and only if it was there, and stays ascending |
| UIntSets.RankIsUnique | include/bm/bm_sim/ras.h:71-75 | a member is determined by the number of smaller ones, so counting off is a bijection |
| UIntSets.NthIsRank | include/bm/bm_sim/ras.h:71-75 | get_nth counts the members off in ascending order: exactly n of them are smaller than the n-th |
| ProfileModel.StepKeeps | src/bm_sim/action_profile.cpp:203-435 | every operation keeps the whole invariant (reference counts, handle ranges, member and group numbers, the selector's copy) if and only if it is not a reset with a live group or the deletion of a member whose counter has wrapped around to zero under a live group |
| ProfileModel.RunKeeps | src/bm_sim/action_profile.cpp:203-435 | the invariant holds after every run of operations, each allowed and safe where it is made |
| ProfileModel.InitHolds | src/bm_sim/action_profile.cpp:163-166 | a new profile satisfies the invariant, with or without a freshly installed selector |
| ProfileModel.NewMemberKeeps | src/bm_sim/action_profile.cpp:215-227 | adding a member under the smallest unused handle keeps the invariant; the handle is at most the size of the vector |
| ProfileModel.DeleteMemberKeeps | src/bm_sim/action_profile.cpp:237-264 | deleting a member leaves no live group with a dead member, except when its counter has wrapped around to zero under a live group, and exactly then the profile is inconsistent |
| ProfileModel.WithoutGroupKeeps | src/bm_sim/action_profile.cpp:337-358 | deleting a group gives back one reference for each member it held, and clears it in the selector |
| ProfileModel.JoinedKeeps | src/bm_sim/action_profile.cpp:380-392 | adding a member to a group adds one reference and mirrors it in the selector |
| ProfileModel.PartedKeeps | src/bm_sim/action_profile.cpp:415-427 | removing a member from a group gives back one reference and mirrors it in the selector |
| ProfileModel.RefKeeps | src/bm_sim/action_profile.cpp:603-611 | table references move the counter of the live handle they are on, and nothing else |
| ProfileModel.ActivationKeeps | PI/src/group_selection.cpp:32-46 | activating and deactivating keeps activated members a subset of the members |
| ProfileModel.SelRemoveAllEffect | PI/src/group_selection.cpp:55-62 | removing every member of a group one at a time drops the group from the selector and leaves the other groups alone |
| ProfileModel.DeleteMemberIff | src/bm_sim/action_profile.cpp:237-264 | delete_member succeeds if and only if the member is live and the number of its references is a multiple of 2^32 |
| ProfileModel.MemberInUseIsRefused | src/bm_sim/action_profile.cpp:245-246 | a live member with more than zero and fewer than 2^32 references is always refused, and nothing changes |
| ProfileModel.DeleteMemberRightIff | src/bm_sim/action_profile.cpp:237-252 | delete_member succeeds for exactly the live members that no table and no live group refers to, if and only if the number of references is not a non-zero multiple of 2^32 |
| ProfileModel.DeleteGroupRightIff | src/bm_sim/action_profile.cpp:327-337 | delete_group succeeds if and only if the group is live and its table references are a multiple of 2^32, which is for exactly the unreferenced groups if and only if that multiple is not another than zero; with fewer than 2^32 a referenced group is always refused |
| ProfileModel.ResetKeepsIff | src/bm_sim/action_profile.cpp:536-546 | reset_state leaves a consistent profile if and only if no group is live |
| ProfileModel.ResetThenCreateGroupAsserts | src/bm_sim/action_profile.cpp:536-546 | after a reset with group 0 live, the next group handle lies past the end of the group vector, where insert_group asserts |
| ProfileModel.RoomInIndexWord | include/bm/bm_sim/action_profile.h:73-91 | with fewer than 2^24 live members, or groups, the next handle fits the index word |
| ProfileModel.ChooseMeans | src/bm_sim/action_profile.cpp:125-130 | lookup through a live group chooses if and only if some member is eligible (any member, or under a selector an activated one), and then the live eligible member with exactly h modulo their number smaller eligible ones; a hash larger by their number chooses the same |
| ActionProfile.GroupSelection.ActivateMember | PI/src/group_selection.cpp:32-38 | the new selector state and result code, for unknown groups, strangers and active members too |
| ActionProfile.GroupSelection.DeactivateMember | PI/src/group_selection.cpp:40-46 | likewise for deactivation |
| ActionProfile.GroupSelection.AddMemberToGroup | PI/src/group_selection.cpp:48-53 | the member joins the group, active |
| ActionProfile.GroupSelection.RemoveMemberFromGroup | PI/src/group_selection.cpp:55-62 | the member leaves, and an emptied group is dropped |
| ActionProfile.GroupSelection.GetFromHash | PI/src/group_selection.cpp:64-68 | returns an activated member |
| ActionProfile.GroupSelection.Reset | PI/src/group_selection.cpp:70-74 | no group is left |
| ActionProfile.ActionProfile.SetGroupSelector | src/bm_sim/action_profile.cpp:523-529 | installing a selector leaves a consistent profile if and only if every live group is empty |
| ActionProfile.ActionProfile.AddMember | src/bm_sim/action_profile.cpp:203-234 | one step of the state machine, the invariant kept; the assertion of the entry vector holds |
| ActionProfile.ActionProfile.DeleteMember | src/bm_sim/action_profile.cpp:237-264 | one step of the state machine with its result code; the invariant kept if and only if the deletion is safe |
| ActionProfile.ActionProfile.ModifyMember | src/bm_sim/action_profile.cpp:267-296 | one step of the state machine with its result code, the invariant kept |
| ActionProfile.ActionProfile.CreateGroup | src/bm_sim/action_profile.cpp:299-324 | one step of the state machine, the invariant kept; the assertion of insert_group holds |
| ActionProfile.ActionProfile.DeleteGroup | src/bm_sim/action_profile.cpp:327-365 | one step of the state machine with its result code, the invariant kept |
| ActionProfile.ActionProfile.ReleaseMembers | src/bm_sim/action_profile.cpp:340-349 | the loop over the members gives back one reference each and tells the selector of each |
| ActionProfile.ActionProfile.AddMemberToGroup | src/bm_sim/action_profile.cpp:368-400 | one step of the state machine with its result code, the invariant kept |
| ActionProfile.ActionProfile.RemoveMemberFromGroup | src/bm_sim/action_profile.cpp:403-435 | one step of the state machine with its result code, the invariant kept |
| ActionProfile.ActionProfile.RefCountIncrease | src/bm_sim/action_profile.cpp:603-606 | one step of the state machine, the invariant kept |
| ActionProfile.ActionProfile.RefCountDecrease | src/bm_sim/action_profile.cpp:608-611 | one step of the state machine, the invariant kept |
| ActionProfile.ActionProfile.ResetState | src/bm_sim/action_profile.cpp:536-546 | from every state nothing is left but the group handles: no member, no entry, no counter, no group in the selector; the profile is consistent afterwards if and only if no group was live |
| ActionProfile.ActionProfile.Lookup | src/bm_sim/action_profile.cpp:169-185 | the entry of the member the index names, or of the eligible member of the group with as many smaller ones as the hash leaves over |
| ActionProfile.ActionProfile.GetMembers | src/bm_sim/action_profile.cpp:455-466 | the result vector, sized by num_members, is filled exactly: every live member once, in handle order, with its entry |
| ActionProfile.ActionProfile.GetGroups | src/bm_sim/action_profile.cpp:486-497 | likewise for the groups and their member lists |
| ActionProfile.InstallIff | src/bm_sim/action_profile.cpp:523-529 | an empty selector mirrors the groups if and only if every live group is empty |
| ProfileRefinement.StepRefines | src/bm_sim/action_profile.cpp:203-435 | every operation on counters, vectors, handle bits and the selector's copy has the result code of the operation on plain maps of members and groups if and only if no counter that has wrapped around to zero guards it, and then shows as that operation |
| ProfileRefinement.RunRefines | src/bm_sim/action_profile.cpp:203-435 | over every run all result codes are those of the plain maps if and only if no deletion meets a counter that has wrapped around to zero, and then the profile shows at the end what the plain maps would |
| ProfileRefinement.AddMemberRefines | src/bm_sim/action_profile.cpp:203-234 | one member more, under the smallest unused handle; or bad action data if and only if the number of parameters is wrong |
| ProfileRefinement.DeleteMemberRefines | src/bm_sim/action_profile.cpp:237-264 | one member less, or still used if and only if a table or a group refers to it; right if and only if the counter has not wrapped around to zero |
| ProfileRefinement.ModifyMemberRefines | src/bm_sim/action_profile.cpp:267-296 | the entry of the member is replaced, and nothing else |
| ProfileRefinement.CreateGroupRefines | src/bm_sim/action_profile.cpp:299-324 | one empty group more, with nothing activated, under the smallest unused handle |
| ProfileRefinement.DeleteGroupRefines | src/bm_sim/action_profile.cpp:327-365 | one group less with all its activations, or still used if and only if a table refers to it; right if and only if the counter has not wrapped around to zero |
| ProfileRefinement.AddToGroupRefines | src/bm_sim/action_profile.cpp:368-400 | the group gains the member, activated; the result codes name the first thing that is wrong |
| ProfileRefinement.RemoveFromGroupRefines | src/bm_sim/action_profile.cpp:403-435 | the group and its activations lose the member |
| ProfileRefinement.ActivateRefines | PI/src/group_selection.cpp:32-46 | activation and deactivation of exactly one member of a group, refused for strangers and for no change |
| RoundRobin.Counter.ChooseFromGroup | src/bm_sim/action_profile.cpp:613-618 | the member picked is the one with exactly as many smaller ones as the counter, narrowed to 32 bits, leaves over when divided by the group size |
| RoundRobin.Counter.Round | src/bm_sim/calculations.cpp:488-498 | s consecutive calls on a group of s members count them off in ascending order from where the counter stands, and pick every member exactly once, as multisets, if and only if the 32-bit counter does not wrap around among them or s divides 2^32 |
| RoundRobin.NextPick | src/bm_sim/action_profile.cpp:613-618 | from a multiple of 2^32 the smallest member is picked, and each call picks the next larger one, or the smallest after the largest, until the narrowed counter wraps around |
| RoundRobin.EachOnceIff | src/bm_sim/action_profile.cpp:613-618 | for every group size no two of s calls choose the same index, and every index is chosen, if and only if the narrowed counter does not wrap around among them or s divides 2^32 |
| RoundRobin.EachTakenIff | src/bm_sim/action_profile.cpp:613-618 | s calls choose s different indices if and only if they choose every index |
| RoundRobin.PicksPermute | src/bm_sim/action_profile.cpp:613-618 | the members picked are a permutation of the group if and only if no index is chosen twice |
| RoundRobin.StraightRun | src/bm_sim/calculations.cpp:488-498 | without a wrap no index is chosen twice |
| RoundRobin.WrapIsSeamless | src/bm_sim/calculations.cpp:488-498 | with a wrap no index is chosen twice when s divides 2^32 |
| RoundRobin.Collision | src/bm_sim/calculations.cpp:488-498 | otherwise a wrap makes two of the calls pick the same member, 2^32 mod s calls apart |
| RoundRobin.ConsistentCounter.Hash | src/bm_sim/calculations.cpp:502-514 | the output is the index of the input in the order of first appearance |
| RoundRobin.OutputsIdentifyInputs | src/bm_sim/calculations.cpp:502-514 | two outputs of a sequence of calls are equal if and only if the inputs are |
| RoundRobin.OutputsFill | src/bm_sim/calculations.cpp:502-514 | every number below the number of distinct inputs is an output, and nothing else is |
| RoundRobin.HashAll | src/bm_sim/calculations.cpp:502-514 | every sequence of calls on a new functor outputs the number of each input in order of first appearance, and the outputs together are exactly 0 to n - 1 for n distinct inputs |
| RoundRobin.SeenIsDistinct | src/bm_sim/calculations.cpp:502-514 | the numbering lists every input once and nothing else |
| RoundRobin.SeenGrows | src/bm_sim/calculations.cpp:502-514 | later calls never renumber an input |
| Ageing.Notified | src/bm_sim/ageing.cpp:181-186 | notified are exactly the expired entries that were not notified last time |
| Ageing.Messages | src/bm_sim/ageing.cpp:190-219 | messages are numbered consecutively and none is empty |
| Ageing.AgeingMonitor.AddTable | src/bm_sim/ageing.cpp:119-122 | a new table is added with nothing remembered; a known one keeps what it remembers |
| Ageing.AgeingMonitor.ResetState | src/bm_sim/ageing.cpp:136-146 | nothing is remembered, the scratch vectors are empty, numbering starts again |
| Ageing.AgeingMonitor.DoSweep | src/bm_sim/ageing.cpp:169-220 | messages, remembered sets and buffer number are those of the specification, and the scratch vectors are empty before and after every table |
| Ageing.AgeingMonitor.SweepTable | src/bm_sim/ageing.cpp:175-194 | the entries to notify for one table; nothing leaks into the next |
| Ageing.StaysExpired | src/bm_sim/ageing.cpp:181-194 | over every run an entry that stays expired is listed in the messages of every second sweep, again and again |
| Ageing.MessagesList | src/bm_sim/ageing.cpp:190-219 | a sweep lists a handle for a table if and only if the table is known, the handle is among what it answered and not remembered: every table with something to notify gets its message |
| Ageing.MessagesAreNotices | src/bm_sim/ageing.cpp:181-217 | every message is for a known table and lists exactly the entries of its answer that are not remembered, in the order of the answer |
| Ageing.MessagesInOrder | src/bm_sim/ageing.cpp:169-220 | at most one message per table and sweep, in the order of the table ids, and none for an unknown table |
| Ageing.SweepsAt | src/bm_sim/ageing.cpp:169-194 | what a sweep of a run notifies follows from what it and the sweep before it found |
| Ageing.SweepsNumbered | src/bm_sim/ageing.cpp:209-209 | buffer ids are consecutive over all messages of all sweeps |
| Ageing.RunSweeps | src/bm_sim/ageing.cpp:156-220 | over every run of sweeps from every valid monitor a message of sweep n lists a handle for a known table if and only if it is expired at n and no message of sweep n - 1 lists it for that table, and buffer ids are consecutive across the whole run |
| MatchKey.PriorityInversion | PI/src/pi_tables_imp.cpp:49-66 | inversion is its own inverse, reverses the order on [0, BM_MAX_PRIORITY] and exchanges its ends |
| MatchKey.MaxPriority | PI/src/pi_tables_imp.cpp:49-53 | BM_MAX_PRIORITY is the smaller of 0x7FFFFFFF and the largest priority |
| MatchKey.BuildKey | PI/src/pi_tables_imp.cpp:68-132 | the key is the one the buffer spells under the schema, exactly the schema's size is consumed, and the priority is inverted if and only if a ternary, optional or range field is present |
| MatchKey.Field.Bytes | PI/src/pi_tables_imp.cpp:82-82 | the least number of bytes that holds the bit width |
| MatchKey.DecodeAt | PI/src/pi_tables_imp.cpp:79-128 | field i is read right after the fields before it |
| MatchKey.FieldMeans | PI/src/pi_tables_imp.cpp:81-128 | what the bytes of a field mean, byte by byte: the value in the least number of bytes that holds it, then the mask, the upper end or the prefix length in the byte order of the host |
| MatchKey.PriorityTypes | PI/src/pi_tables_imp.cpp:84-128 | a priority is set if and only if some field is neither valid nor exact nor LPM |
| MatchKey.ReadField | PI/src/pi_tables_imp.cpp:84-128 | one parameter per field, and how far the data pointer moves |
| MatchKey.EmitMatchKey | PI/src/pi_tables_imp.cpp:450-471 | the buffer is the concatenation of the encodings of the parameters |
| MatchKey.Uint32RoundTrips | PI/src/pi_tables_imp.cpp:100-101 | a 32-bit integer in host byte order survives emit and retrieve, both ways and in both byte orders |
| MatchKey.FieldRoundTrips | PI/src/pi_tables_imp.cpp:450-471 | emitting a field just read gives back its bytes, a VALID byte reduced to 0 or 1 |
| MatchKey.BufferRoundTrips | PI/src/pi_tables_imp.cpp:450-471 | for every schema and every long enough buffer, emitting the key just built reproduces the buffer up to VALID bytes |
| MatchKey.ParamRoundTrips | PI/src/pi_tables_imp.cpp:68-132 | reading a parameter just emitted gives it back |
| MatchKey.KeyRoundTrips | PI/src/pi_tables_imp.cpp:68-132 | the other way round: building a key from what was emitted for it gives the key, for every key that fits the schema |
| ActionParams.CallKeeps | src/bm_sim/actions.cpp:84-330 | every call of a balanced sequence that passes its assertions takes an encoding of the nested list so far to an encoding of the longer one, while a slice is open too |
| ActionParams.RoundTrip | src/bm_sim/actions.cpp:84-330 | for every balanced, un-nested sequence of calls the builder passes all assertions if and only if not both some string is pushed outside the slices and some string inside one, and decoding the two flat vectors then gives back the nested parameter list that was pushed |
| ActionParams.GuardIff | src/bm_sim/actions.cpp:274-288 | the next call passes its assertions if and only if it does not put strings in both lists |
| ActionParams.SlicesPartition | src/bm_sim/actions.cpp:290-330 | every element of sub_params is in exactly one vector or field list |
| ActionParams.RefreshSpells | src/bm_sim/actions.cpp:274-288 | after a push of a string and the recomputation of the pointers both lists read as before over the longer vector of strings |
| ActionParams.RegistersDistinct | src/bm_sim/actions.cpp:215-233 | in one list distinct expressions have distinct temporary registers, counted from 1 |
| ActionParams.SharedRegisterIff | src/bm_sim/actions.cpp:215-233 | the two lists number their registers separately: an expression of the outer list shares its register with one in a slice if and only if a slice holds one |
| ActionParams.EditKeeps | src/bm_sim/actions.cpp:215-233 | the shared register count stays exactly one more than the most expressions in any list of any action |
| ActionParams.RegistersSuffice | src/bm_sim/actions.cpp:215-233 | over every interleaving of the construction of any number of actions the assertion on the shared count never fails |
| ActionParams.RegistersApart | src/bm_sim/actions.cpp:215-233 | after every such run two expressions of one list have different registers below the shared count |
| ActionParams.WindowIsOwn | src/bm_sim/actions.cpp:332-341 | the offset of a primitive selects exactly its own parameters, in whatever order primitives are executed |
| ActionParams.ActionFn.PushBackPlain | src/bm_sim/actions.cpp:84-132 | appends to the current list and changes nothing else |
| ActionParams.ActionFn.PushBackExpression | src/bm_sim/actions.cpp:215-233 | numbers the expression after those of the current list and raises the shared count when it is reached |
| ActionParams.ActionFn.PointAnew | src/bm_sim/actions.cpp:281-282 | the loop that recomputes the string pointers of the current list |
| ActionParams.ActionFn.PushBackString | src/bm_sim/actions.cpp:274-288 | stores the string, recomputes the pointers and appends a parameter that reads it |
| ActionParams.ActionFn.StartSlice | src/bm_sim/actions.cpp:290-302 | appends an empty slice and swaps the two vectors (parameter_start_field_list is the same with its own tag) |
| ActionParams.ActionFn.EndSlice | src/bm_sim/actions.cpp:304-311 | swaps back and sets the end of the slice (likewise for parameter_end_field_list) |
| ActionParams.ActionFn.PushBackPrimitive | src/bm_sim/actions.cpp:332-341 | offsets are the running sums of the parameter counts |
| ActionParams.ActionFn.ReadSlice | include/bm/bm_sim/actions.h:564-596 | a primitive that takes a vector receives exactly the items of its slice, in order |

## Left out

- ActionParams.ActionFn.ReadSlice: gives the items of the slice, not the data values they evaluate to, because
  expression evaluation is not part of this model.
- The capacities of the trie's vectors, realloc and malloc failure: vectors are sequences; that their
  sizes fit 16 bits is proved. Freed nodes are unlinked and not reused. `bf_lpm_trie_destroy` is left out.
- The key width limit of 64 bytes in `bf_lpm_trie_create`: the proofs hold for every width.
- `crc16`, `crc32` and `crcCCITT` with their constant tables: the same loop as `crc_custom` over tables
  that are data; `xxh64` is a foreign library; `xor_hash` and `identity` would add easy members.
- The mutexes, logging, the debugger, clocks and the sweep thread; messages are values, not bytes on a
  transport.
- `ActionProfile::serialize` and `deserialize`: the handle allocation they lead to is covered by
  `Handles.ClaimAscending`.
- Next nodes and action data values of an action profile entry: an entry is a value that is stored and
  returned whole. The tag in the top byte of an index word is modelled by a datatype; its 24-bit limit on
  handles is a condition of `ProfileModel.Allowed`.
- Words of `DynamicBitset`: a bit vector is a sequence of bits; the padding of the last word, which shows
  in the result of `find_unset_next`, is modelled.
- The 64-bit wrap-around of the counters of `round_robin_consistent` and of buffer ids.
- `emit_uint32` and `retrieve_uint32` come from the PI library, which is not part of this model; they are
  taken to copy a 32-bit integer in host byte order, in either order.
- Expression evaluation, data values of constants and registers, and the execution of primitives with
  their jumps: `ActionParams` covers which parameters a primitive is handed. Sizes of parameter lists are
  taken to fit the 32-bit start and end of a slice.
- Parsing, deparsing, match tables, meters, the traffic manager, the packet replication engine and the
  Thrift, PI and PD wrappers.
