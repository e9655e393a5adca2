# A verified model of web3cpp's Merkle Patricia trie, RLP and encodings

web3cpp stores maps of byte strings in the modified Merkle Patricia tree of the Ethereum Yellow Paper (Appendix D).
This project models that tree and everything under it, and proves what the code is for:

- **The tree, node by node** (`TrieDB.dfy` over `StateCacheDB.dfy`). `GenericTrieDB` cleaves, branches, merges and
  grafts nodes in a reference-counted store. Every method is proved against a tree given as a value (`Trie.dfy`), and
  the trees against plain finite maps (`TrieMap.dfy`): lookups, canonical shape, roots that depend on contents only
  (`TrieCanonical.dfy`), and counts that are exactly the occurrences of each hash in the unfolded tree, all for keys of
  any length, prefixes of each other included. `TrieRemoval.dfy` says which keys can be removed, and `TrieMistake.dfy`
  reaches a trie with one that cannot.
- **The tree in one pass** (`TrieHash.dfy` over `HexMap.dfy`). `hash256` streams the nodes of a sorted map; its tree is
  shown to answer as the map does, and its root to be the one kept node by node (`TrieRoots.dfy`).
- **Iteration** (`TrieEntries.dfy`, `TrieIterator.dfy`, `TrieIteration.dfy`). The iterator's trail and its child counter,
  `begin`, `++` and `lower_bound`.
- **RLP** (Appendix B): items and their recursive encoding, the strict reader as one walk (`Rlp.dfy`), the caching list
  reader and its iterator (`RlpReader.dfy`), the stream that shifts list headers in once lists are full
  (`RlpStream.dfy`), and whole runs of that stream (`RlpWriting.dfy`).
- **Hex-prefix notation** (Appendix C) with its three encoders (`HexPrefix.dfy`).
- **Transactions** with EIP-155 (`Transaction.dfy`, item by item in `TransactionForms.dfy`), **ABI packing** (`Solidity.dfy`), **Ledger reports and paths**
  (`LedgerEncoding.dfy`, `LedgerPath.dfy`), **RIPEMD-160** around its compression (`Ripemd.dfy`), **wei strings**
  (`Wei.dfy` over `Decimals.dfy`) and **Base64** (`Base64.dfy`).

What is written is also stated in numbers, apart from the functions that compute it: the bytes of every hex-prefix key
(`HexPrefixBytes`), node (`NodeForm`, and whole roots in `TrieExamples.dfy`), RLP item (`StringForms`, `ListForms`),
transaction (`SignedItems`, `ReadV`), packed text (`TextFilledUp`), Ledger report (`SentBytes`) and path (`PathBytes`),
Base64 text (`Base64Characters`, `Base64Bytes`) and padded RIPEMD block (`PaddedBytes`, `InitialBytes`).

Conventions. An exception is `None`, `false` or `null`. Code with state is a class whose `Valid()` ties its fields to a
ghost value, and whose methods say what becomes of that value. keccak256 is a function `sha3` of which nothing is
assumed except that it does not confuse the finitely many nodes that occur in a run (`ToldApart` of `RunNodes`, computed
from the operations in `TrieSteps.dfy`). `TrieHashers.RunCanBeToldApart` shows that for every run there are such functions,
and even such that no value put in is the hash of a node. Nodes are handled as RLP items rather than as bytes;
`Rlp.WalkInvertsEncode` says the two are the same thing.

What the proofs found where the code falls short of what it is for:

- `deleteAt` takes values for hashes and reads behind keys (`Remove`, `TrieRemoval.dfy`). Removing a stored key fails
  exactly if that leaves a value alone in its branch which has more than 32 bytes, so that `isTwoItemNode` throws with
  counts already changed, or which a lookup takes for the hash of a leaf or extension, which is then grafted in its place.
  `TrieMistake.dfy` has a run that leads there.
  Removing a key that is not stored goes astray exactly if a stored key that begins it begins no stored key, or if two
  stored keys part just behind it; nothing has changed up to there. With keys none of which begins another none of this
  happens.
- A list access that throws spoils the last item that could be read, which throws too from then on, until an item
  before it is looked up (`RlpReader.RLP.Index`).
- `rawV` computes its offset in an `int`, so a transaction with a chain id from 2^30 on does not come back
  (`SurvivesIff`, `LargeChainIdIsLost`); chain id 0 is written as a v the reader refuses. Under a zero signature the
  chain id is appended through the overload for 32-bit unsigned numbers, and read back modulo 2^64.
- `packMulti` moves on behind an array of numbers by the size of the argument's JSON object instead of the array's
  (`OffsetsTrueIff`, `ShortArrayMisplaces`).
- `encodeSignEthMessage` drops what of a path does not fit the first 52 bytes (`NothingLost`).
  For a printed path that is the thirteenth component (`PrintedPathFits`).
- `packBytes` drops the last of an odd number of digits, where `packBytesArray` puts a zero in front
  (`MeaningRecoveredIff`).
- `ripemd160` counts in 32 bits: an input of 2^32 bytes or more is hashed as a beginning of it (`Ripemd160`).
- `toWei` does not notice a second point (`WeiIff`, `SecondPointStays`).

## Model

| member | source | states |
|---|---|---|
| TrieDB.GenericTrieDB.Run | include/web3cpp/devcore/TrieDB.h:742-1160 | A run of insertions, removals and purges, with keys of any length, goes on exactly until a removal finds a map that is not Removable at its key, or takes a value for a hash that its store then knows; without one the trie ends valid and bound to exactly what the run makes of a plain finite map. The stores on the way are told: each has all nodes of its tree, counted exactly, and nodes leave by purges only. Where no value is the hash of a node that occurs, only the maps decide |
| TrieDB.GenericTrieDB.constructor | include/web3cpp/devcore/TrieDB.h:51-53 | A trie over an empty store starts valid and bound to the empty map |
| TrieDB.GenericTrieDB.Insert | include/web3cpp/devcore/TrieDB.h:742-754 | Insertion changes the map at its own key and nowhere else, through every cleave, branch and merge, and keeps all counts exact; keys of any length, prefixes of each other included |
| TrieDB.GenericTrieDB.Remove | include/web3cpp/devcore/TrieDB.h:889-899 | Removal goes through exactly if the map is Removable at the key and leaves no value alone that a lookup takes for the hash of a leaf or extension, with references enforced or not: it then takes its own key out and nothing else. For a key that is not stored all is as it was, up to where the code leaves its key or node; where it throws, the root stays |
| TrieRemoval.SafeIff | include/web3cpp/devcore/TrieDB.h:912-1014 | The descent of a removal takes no value for a hash and stays inside the key exactly if the map is Removable at the key: a stored key that is the only one behind some other leaves at most 32 bytes there alone; behind a missing key no two stored keys part, and no stored key in front of it is the last of its kind |
| TrieRemoval.RemovalGoesAstray | include/web3cpp/devcore/TrieDB.h:935-1010 | A map and key for each of the three ways to go wrong: behind the key of a leaf, at a branch without a value, and with a value of more than 32 bytes left alone in its branch |
| TrieDB.GenericTrieDB.StakeMistaken | include/web3cpp/devcore/TrieDB.h:901-905 | The map tells whether a removal takes a value for a hash: exactly if that of the key which only the removed one goes on behind is the hash of a leaf or extension still seen once the removed leaf is counted down |
| TrieMistake.MistakeReached | include/web3cpp/devcore/TrieDB.h:1003-1008 | A fourth way, reached by a run: with a value of 32 bytes or more under one key and the hash of its leaf under another, removing a key behind the latter takes that hash for a reference, though the trie is valid and the map Removable; references enforced or not |
| TrieMistake.MistakeCanBeToldApart | include/web3cpp/devcore/TrieDB.h:273-274 | For every hash and value some function into 32 bytes gives the leaf that hash and tells all nodes of that run apart |
| TrieRemoval.InsideIff | include/web3cpp/devcore/TrieDB.h:935-988 | The descent stays inside key and nodes exactly if no stored key ends on the way and no two part at the end of the key |
| TrieRemoval.StakeIff | include/web3cpp/devcore/TrieDB.h:997-1010 | The value left alone in a branch by removing a key is that of the stored key which the removed one alone goes on behind, and what goes is a leaf just under that branch |
| TrieRemoval.PrefixFreeRemovable | include/web3cpp/devcore/TrieDB.h:912-1014 | Where no key begins another every key can be removed, or seen to be missing |
| TrieRemoval.OneLengthPrefixFree | include/web3cpp/devcore/TrieDB.h:299-306 | Of keys of one length none begins another |
| TrieRemoval.ShortValuesRemovable | include/web3cpp/devcore/TrieDB.h:901-905 | Where all values have at most 32 bytes none that is left alone is too long, so the map is Removable at every stored key |
| TrieDB.PrefixFreeRun | include/web3cpp/devcore/TrieDB.h:742-1160 | A run over keys none of which begins another, as keys of one length, goes through, and no value in it is taken for a hash |
| TrieDB.GenericTrieDB.At | include/web3cpp/devcore/TrieDB.h:756-759 | A lookup returns what the map holds, or nothing; no node it needs is missing from the store or has a zero count |
| TrieDB.GenericTrieDB.RootIffContents | include/web3cpp/devcore/TrieDB.h:742-1160 | Two tries whose nodes can be told apart have equal roots exactly if they are bound to equal maps, whatever their histories |
| TrieRoots.TwoBuildersAgree | src/devcore/TrieHash.cpp:14-97 | After every run from the empty trie that goes through, the root kept node by node equals the root computed in one pass from the final map; where no value is the hash of a node that occurs, it goes through exactly if the maps let it |
| TrieRoots.RootIsHash256 | src/devcore/TrieHash.cpp:94-97 | The root of any valid trie is the one-pass hash of the map it is bound to |
| TrieHashers.RunCanBeToldApart | include/web3cpp/devcore/TrieDB.h:273-274 | Whatever the run, of at most 2^256 nodes and operations and strings below 2^62, some function into 32 bytes gives all its nodes different hashes and none of its values as a hash: the assumption about hashes can be met |
| TrieHashers.ExampleCanBeToldApart | include/web3cpp/devcore/TrieDB.h:742-754 | A run of two keys for which all that Run and TwoBuildersAgree ask is met |
| TrieDB.GenericTrieDB.Check | include/web3cpp/devcore/TrieDB.h:199-210 | The walk over the whole trie never throws, and finds no counted node outside the trie |
| TrieDB.GenericTrieDB.LeftOvers | include/web3cpp/devcore/TrieDB.h:184-189 | No hash is counted that the unfolded tree does not refer to |
| TrieDB.GenericTrieDB.PurgeStore | src/devcore/StateCacheDB.cpp:122-140 | Purging the store leaves a trie that owns it valid, so no lookup changes |
| TrieIteration.Iterate | include/web3cpp/devcore/TrieDB.h:488-500 | A walk from begin to end yields every stored pair once, in strictly ascending key order, and nothing else |
| TrieIteration.Seek | include/web3cpp/devcore/TrieDB.h:495-500 | lower_bound stops at the least stored key that does not lie before the given one, or at the end if all lie before it |
| TrieHash.Rlp256 | src/devcore/TrieHash.cpp:81-92 | For every map with non-empty values, keys that prefix each other included, the bytes are the root node of a canonical tree that answers every lookup as the map does |
| TrieHash.Hash256 | src/devcore/TrieHash.cpp:94-97 | The hash is that of the root node of every canonical tree that stores the map, and there is one |
| Rlp.WalkInvertsEncode | src/devcore/RLP.cpp:21-211 | The strict reader reads an item from some bytes exactly if they are its recursive encoding and it is not too long for the reader: round trip in both directions, so encodings are unique |
| RlpWriting.RunsAreItems | src/devcore/RLP.cpp:213-332 | A run of appends and list openings leaves just one finished item and nothing open exactly if it wrote that item from the outside in |
| RlpWriting.Write | src/devcore/RLP.cpp:213-332 | Written call by call, with all headers shifted in afterwards, an item comes out as its recursive encoding |
| RlpReader.RLP.Index | src/devcore/RLP.cpp:67-89 | On any bytes, after any accesses: item i, or the null view past the end; it throws exactly where the payload cannot be read that far, and after such a throw also at the last readable item, until an earlier one is looked up |
| Transaction.SurvivesIff | src/ethcore/TransactionBase.cpp:27-185 | A signed transaction is read back from its own bytes exactly if its recovery id is 0 or 1 and its chain id is absent, or positive with 2*chainId+35+v below 2^31; under a zero signature, exactly if v is 0 and the chain id fits 32 bits |
| Transaction.NotMalleable | src/ethcore/TransactionBase.cpp:27-185 | Bytes read as a surviving transaction with a signature that is not zero are written again byte for byte |
| Transaction.ZeroSignatureIsMalleable | src/ethcore/TransactionBase.cpp:55-58 | Under a zero signature two different byte strings are read as one transaction, because v is narrowed to 64 bits |
| Transaction.LargeChainIdIsLost | src/ethcore/TransactionBase.cpp:134-141 | A transaction with chain id 2^30 does not come back from its own bytes |
| Transaction.SigningDetermines | src/ethcore/TransactionBase.cpp:158-185 | What is signed is equal for two transactions exactly if all their fields are, and their chain ids modulo 2^32 |
| Solidity.OffsetsTrueIff | src/Solidity.cpp:290-349 | Every offset packMulti writes is the byte position of its tail exactly if each array of numbers that comes before a dynamic argument has half as many members in its JSON object as it has words |
| Solidity.PackingRecovered | src/Solidity.cpp:290-349 | If no array is miscounted, a reader that follows the offsets recovers every argument; of an odd number of digits all but the last |
| Solidity.MeaningRecoveredIff | src/Solidity.cpp:121-131 | It recovers what the argument stands for, except exactly for a single bytes argument with an odd number of digits, which arrays of bytes complete and this packer does not |
| Solidity.ShortArrayMisplaces | src/Solidity.cpp:312-314 | An array of two numbers with the usual two members, before a string, gives the string a wrong offset |
| LedgerEncoding.NothingLost | src/ledger/encoding.cpp:299-412 | Read as the device does, three reports to a package, byte 8 on of the first and byte 6 on of the others, cut at the length in bytes 6 and 7, and freed of five bytes, the reports give path and transaction exactly if the path has at most 52 bytes; only the first package has P1 = 0x00, and every report has 65 bytes |
| LedgerEncoding.PrintedPathFits | src/ledger/encoding.cpp:34-69 | For a parsed printed path nothing is lost exactly if it has at most twelve components; the thirteenth makes 53 bytes |
| LedgerPath.PathRoundTrip | src/ledger/encoding.cpp:34-69 | A printed path, with or without its root, parses to its count modulo 256 and words that decode to the components |
| Ripemd.Ripemd160 | src/devcrypto/Hash.cpp:384-419 | For every input the result is the compression folded over the padded input, as far as 32 bits count it: all of it exactly below 2^32 bytes |
| Ripemd.PaddedInjective | src/devcrypto/Hash.cpp:332-360 | Different inputs are padded to different blocks |
| Wei.WeiIff | src/Utils.cpp:292-325 | toWei gives a numeral exactly if the amount consists of digits with at most one point and the fraction fits; it is then the numeral without leading zeros of the amount in the smallest unit |
| Wei.WeiIsUnits | src/Utils.cpp:292-325 | The same for an amount given by its whole and its fraction |
| Wei.WeiRoundTrip | src/Utils.cpp:292-347 | toWei undoes fromWei on every non-empty string of digits, but for leading zeros |
| Wei.SecondPointStays | src/Utils.cpp:298-318 | 1.2.3 with three decimals becomes 12.3 |
| Base64.Base64RoundTrip | src/devcore/Base64.cpp:38-160 | fromBase64 undoes toBase64 on every byte sequence, and the encoding has 4*ceil(n/3) characters |
| HexPrefix.HexPrefixRoundTrip | include/web3cpp/devcore/TrieCommon.h:80-100 | keyOf and isLeaf undo the hex-prefix encoding for keys of either parity |
| HexPrefix.HexPrefixInjective | src/devcore/TrieCommon.cpp:14-44 | The encoding determines key and leaf flag |
| CommonData.BigEndianRoundTrip | include/web3cpp/devcore/CommonData.h:120-145 | Reading back the compact big-endian bytes of a number gives the number; they have no leading zero |
| CommonData.CompactRoundTrip | include/web3cpp/devcore/CommonData.h:120-145 | Bytes without a leading zero are the compact bytes of the number they stand for |
| CommonData.BigEndianSize | include/web3cpp/devcore/CommonData.h:137-146 | A number has at most k compact bytes exactly if it is below 256 to the k |
| CommonData.BytesRequired | include/web3cpp/devcore/CommonData.h:195-202 | The count of shifts is the number of compact bytes |
| CommonData.ReadBigEndian | include/web3cpp/devcore/CommonData.h:120-127 | The loop over the bytes computes the number they stand for |
| Rlp.EncodeThenWalk | src/devcore/RLP.cpp:91-211 | Fully walking an encoding recovers the item |
| Rlp.WalkThenEncode | src/devcore/RLP.cpp:91-211 | Bytes the strict reader walks without throwing are the encoding of what it read |
| Rlp.EncodeInjective | src/devcore/RLP.cpp:259-332 | Different items have different encodings |
| Rlp.ReadHeader | src/devcore/RLP.cpp:142-198 | What the reader measured at the front of an item is the header the writer puts there, minimal length included |
| RlpReader.ReadLength | src/devcore/RLP.cpp:142-198 | The loop of length() computes the length, and throws on short, padded or oversized lengths |
| RlpReader.ViewsOfWalked | src/devcore/RLP.cpp:40-89 | On a fully readable list the views are the encodings of its items, in order |
| RlpReader.RLP.Items | src/devcore/RLP.cpp:200-211 | The item count is the number of views, zero on what is not a list, and the payload shrinks every round |
| RlpReader.Iterator.Begin | src/devcore/RLP.cpp:53-65 | Where begin() does not throw it stands on item 0, or at the end |
| RlpReader.Iterator.Next | src/devcore/RLP.cpp:40-51 | The iterator goes from item i to item i+1, or to the end after the last; it throws exactly where the next item cannot be measured |
| RlpReader.Iterate | src/devcore/RLP.cpp:40-65 | A loop over any strict view meets its readable items in order, then stops, or throws if there is more |
| RlpStream.RLPStream.NoteAppended | src/devcore/RLP.cpp:220-257 | Counting items that were appended closes every list they fill, innermost first, with its header in front of its payload; it throws exactly if a list gets more than it wants or too long a payload |
| RlpStream.RLPStream.Append | src/devcore/RLP.cpp:279-298 | Appends a string as one item of the innermost open list |
| RlpStream.RLPStream.AppendCompact | src/devcore/RLP.cpp:279-288 | Appends a string without its leading zeros, which is the number it stands for in compact form |
| RlpStream.RLPStream.AppendInt | src/devcore/RLP.cpp:300-323 | Appends a number as the string of its compact bytes |
| RlpStream.RLPStream.AppendList | src/devcore/RLP.cpp:259-267 | Opens a list for n items; an empty list is an item at once |
| RlpStream.RLPStream.AppendListOf | src/devcore/RLP.cpp:269-277 | Appends a whole list given by its payload |
| RlpStream.RLPStream.AppendRaw | src/devcore/RLP.cpp:213-218 | Appends items that are already encoded |
| RlpStream.RLPStream.PushCount | src/devcore/RLP.cpp:325-332 | Writes the header of a payload of 56 bytes or more |
| RlpStream.RLPStream.PushInt | include/web3cpp/devcore/RLP.h:433-440 | Writes the compact bytes of a number, lowest byte last |
| RlpStream.RLPStream.Out | include/web3cpp/devcore/RLP.h:418 | The bytes are the encodings of the finished items; it throws while a list is open |
| RlpStream.InsertHeader | src/devcore/RLP.cpp:234-252 | Moving the payload up and writing its header before it, or failing where the length needs more than eight bytes |
| RlpWriting.RunPreorder | src/devcore/RLP.cpp:213-332 | Writing an item from the outside in, into any state of the stream, is noting that one item |
| RlpWriting.RunTrace | src/devcore/RLP.cpp:213-332 | What a stream holds after any run that did not throw tells which calls were made |
| RlpWriting.Play | src/devcore/RLP.cpp:213-332 | Making the calls on the stream does what they do to the forest it holds, and throws where that throws |
| HexPrefix.EncodeHexVector | src/devcore/TrieCommon.cpp:29-44 | The encoder of a nibble vector gives the hex-prefix form of the slice, a negative end counted from behind; its first byte is 0x20 for a leaf, and for an odd key 0x10 and the first nibble more |
| HexPrefix.EncodeData | src/devcore/TrieCommon.cpp:46-65 | The encoder of bytes with offsets gives the hex-prefix form of the same nibbles, with the same first byte |
| HexPrefix.EncodeTwo | src/devcore/TrieCommon.cpp:67-97 | The encoder of two slices gives the hex-prefix form of their concatenation, with the same first byte |
| HexPrefix.NibbleSlice.At | include/web3cpp/devcore/TrieCommon.h:42 | Nibble i of a slice |
| HexPrefix.NibbleSlice.Mid | include/web3cpp/devcore/TrieCommon.h:45 | The rest of a slice |
| HexPrefix.SharedNibbles | include/web3cpp/devcore/TrieCommon.h:21-31 | The length of the longest common beginning |
| HexPrefix.Contains | include/web3cpp/devcore/TrieCommon.h:49 | True exactly of prefixes |
| HexPrefix.Equal | include/web3cpp/devcore/TrieCommon.h:69 | True exactly of slices with the same nibbles |
| HexPrefix.IsEarlierThan | include/web3cpp/devcore/TrieCommon.h:57-68 | True exactly if the slice comes first in lexicographic order |
| HexPrefix.UnpackPack | src/devcore/CommonData.cpp:94-104 | asNibbles undoes packing an even number of nibbles |
| HexPrefix.PackUnpack | src/devcore/CommonData.cpp:94-104 | Packing undoes asNibbles |
| Trie.GetInsert | include/web3cpp/devcore/TrieDB.h:798-887 | Inserting into a tree, splitting and branching as needed, changes the lookup of its own key and of no other |
| Trie.InsertCanonical | include/web3cpp/devcore/TrieDB.h:798-887 | Insertion keeps the canonical shape: no extension above anything but a branch, no branch with fewer than two slots in use |
| Trie.GetDelete | include/web3cpp/devcore/TrieDB.h:912-1031 | Removal clears its own key, changes no other lookup, and restores the canonical shape |
| Trie.UniqueInUseIs | src/devcore/TrieCommon.cpp:99-111 | The result is the one slot in use, or 255 if there is none or there are two |
| TrieCanonical.Unique | include/web3cpp/devcore/TrieDB.h:742-1160 | Two canonical trees with the same lookups are the same tree |
| TrieMap.SameMapSameTree | include/web3cpp/devcore/TrieDB.h:742-1160 | A map of byte strings is stored by only one canonical tree |
| TrieMap.StoresInsert | include/web3cpp/devcore/TrieDB.h:742-754 | Inserting a pair into the tree of a map gives the tree of the updated map |
| TrieMap.StoresDelete | include/web3cpp/devcore/TrieDB.h:889-899 | Removing a stored key from the tree of a map gives the tree of the map without it |
| TrieNode.ItemDetermines | include/web3cpp/devcore/TrieDB.h:1068-1075 | Where the nodes that occur can be told apart, a node determines the whole tree below it |
| TrieNode.NodeRead | include/web3cpp/devcore/TrieDB.h:742-759 | Reading the bytes of a node gives back its item |
| TrieNode.NeverCounted | include/web3cpp/devcore/TrieDB.h:1033-1040 | A branch with one slot in use, as it is for a moment while keys part, is never counted, so counting it down changes nothing |
| TrieSteps.InsertKnown | include/web3cpp/devcore/TrieDB.h:798-887 | All nodes below the tree after insertion are among those there before and those insertion passes through |
| TrieSteps.DeleteKnown | include/web3cpp/devcore/TrieDB.h:912-1031 | The same for removal |
| StateCacheDB.DB.constructor | include/web3cpp/devcore/StateCacheDB.h:16 | A new store is empty and counts nothing |
| StateCacheDB.DB.Lookup | src/devcore/StateCacheDB.cpp:37-51 | Returns the bytes of a node that is there and, if references are enforced, still counted |
| StateCacheDB.DB.Insert | src/devcore/StateCacheDB.cpp:64-77 | Adds one reference and sets the bytes; touches nothing else |
| StateCacheDB.DB.Kill | src/devcore/StateCacheDB.cpp:79-93 | Takes one reference away if there is one, and keeps all bytes |
| StateCacheDB.DB.Purge | src/devcore/StateCacheDB.cpp:122-140 | Keeps exactly the entries with a count |
| StateCacheDB.DB.Keys | src/devcore/StateCacheDB.cpp:142-152 | Exactly the hashes with a count |
| TrieDB.GenericTrieDB.MergeAt | include/web3cpp/devcore/TrieDB.h:798-868 | Turns the node of a tree into the node of the tree with the key bound, and moves the reference counts from the one to the other |
| TrieDB.GenericTrieDB.MergeUnder | include/web3cpp/devcore/TrieDB.h:819-828 | The case of an extension the key goes below |
| TrieDB.GenericTrieDB.MergeInto | include/web3cpp/devcore/TrieDB.h:845-866 | The case of a branch |
| TrieDB.GenericTrieDB.MergeApart | include/web3cpp/devcore/TrieDB.h:830-843 | The case where the keys part: cleave or branch, then merge again |
| TrieDB.GenericTrieDB.MergeAtAux | include/web3cpp/devcore/TrieDB.h:870-887 | Merges into a child, written in place or by hash, and gives its new reference |
| TrieDB.GenericTrieDB.Place | include/web3cpp/devcore/TrieDB.h:1033-1048 | Puts a value at the node itself |
| TrieDB.GenericTrieDB.Cleve | include/web3cpp/devcore/TrieDB.h:1077-1092 | Splits a two-item node into an extension over the rest of it |
| TrieDB.GenericTrieDB.BranchOut | include/web3cpp/devcore/TrieDB.h:1132-1160 | Turns a two-item node into a branch with one slot in use |
| TrieDB.GenericTrieDB.DeleteAt | include/web3cpp/devcore/TrieDB.h:912-1014 | Turns the node of a tree into the node of the tree without the key, says the key is not there, or goes astray, each exactly when it should; counts follow, and nothing changes for a key that is not stored |
| TrieDB.GenericTrieDB.DeleteUnder | include/web3cpp/devcore/TrieDB.h:934-946 | The case of an extension: graft, or a new child |
| TrieDB.GenericTrieDB.DeleteInto | include/web3cpp/devcore/TrieDB.h:980-1011 | The case of a branch and a slot: collapse where one slot is left |
| TrieDB.GenericTrieDB.DeleteValue | include/web3cpp/devcore/TrieDB.h:956-979 | The case of the value of a branch |
| TrieDB.GenericTrieDB.DeleteAtAux | include/web3cpp/devcore/TrieDB.h:1016-1031 | Removes from a child, written in place or by hash |
| TrieDB.GenericTrieDB.Graft | include/web3cpp/devcore/TrieDB.h:1094-1115 | Joins an extension with the two-item node below it |
| TrieDB.GenericTrieDB.Merge | include/web3cpp/devcore/TrieDB.h:1117-1130 | Turns a branch with one slot in use into a two-item node |
| TrieDB.GenericTrieDB.Collapse | include/web3cpp/devcore/TrieDB.h:998-1012 | What stands for a branch after one slot changed: itself, or a merged and perhaps grafted node; None exactly if the value left alone has more than 32 bytes, where the code throws, or is taken for the hash of a leaf or extension |
| TrieDB.GenericTrieDB.MergeSlot | include/web3cpp/devcore/TrieDB.h:1003-1010 | Merging a branch with its one slot in use, and grafting if that holds a two-item node |
| TrieDB.GenericTrieDB.UniqueInUseOf | src/devcore/TrieCommon.cpp:99-111 | The scan over a branch finds its one slot in use besides the excepted one |
| TrieDB.GenericTrieDB.IsTwoItemNode | include/web3cpp/devcore/TrieDB.h:901-905 | True exactly of references to leaves and extensions, and of values that a lookup takes for the hash of one; throws at a value longer than a hash |
| TrieDB.GenericTrieDB.Follow | include/web3cpp/devcore/TrieDB.h:907-910 | The node a reference stands for |
| TrieDB.GenericTrieDB.StreamNode | include/web3cpp/devcore/TrieDB.h:1068-1075 | A node of 32 bytes or more goes into the store and is referred to by its hash |
| TrieDB.GenericTrieDB.KillNode | include/web3cpp/devcore/TrieDB.h:281 | Takes one reference from a node that has one |
| TrieDB.GenericTrieDB.ForceInsertNode | include/web3cpp/devcore/TrieDB.h:273-274 | Adds one reference to a node, large or small |
| TrieDB.GenericTrieDB.AtAux | include/web3cpp/devcore/TrieDB.h:761-791 | Descends to the value of a key |
| TrieDB.GenericTrieDB.DescendKey | include/web3cpp/devcore/TrieDB.h:139-147 | The walk takes the hashes of a subtree off the mask and does not throw |
| TrieDB.GenericTrieDB.DescendEntry | include/web3cpp/devcore/TrieDB.h:150-159 | The walk below one reference |
| TrieDB.GenericTrieDB.DescendList | include/web3cpp/devcore/TrieDB.h:162-181 | The walk below one node |
| TrieHash.SharedPrefix | src/devcore/TrieHash.cpp:25-35 | The loop computes how many nibbles all keys of the range share |
| TrieHash.CommonIsShared | src/devcore/TrieHash.cpp:25-35 | That many nibbles really are shared by every key |
| TrieHash.CommonReached | src/devcore/TrieHash.cpp:25-35 | And some key shares no more |
| TrieHash.RangeEnd | src/devcore/TrieHash.cpp:49-57 | The range of one nibble ends where the next begins |
| TrieHash.DenotesBranch | src/devcore/TrieHash.cpp:42-64 | A branch over the sixteen ranges and at most one key that ends here answers as the entries do |
| TrieHash.DenotesExt | src/devcore/TrieHash.cpp:36-41 | So does an extension over the shared beginning |
| TrieHash.Hash256Rlp | src/devcore/TrieHash.cpp:14-66 | Streams the node of a canonical tree that answers exactly as the entries of the range do |
| TrieHash.Hash256Aux | src/devcore/TrieHash.cpp:68-79 | Streams that node as a child: in place under 32 bytes, else by hash |
| TrieHash.Hash256Branch | src/devcore/TrieHash.cpp:42-64 | The case where the keys part |
| TrieHash.Hash256Ext | src/devcore/TrieHash.cpp:36-41 | The case where all keys go on alike |
| TrieHash.Collect | src/devcore/TrieHash.cpp:86-88 | The nibble map holds just the entries of the byte map, sorted, in whatever order they are taken |
| HexMap.FindAssigned | src/devcore/TrieHash.cpp:86-88 | Assigning a key changes the lookup of that key only |
| HexMap.AssignedSorted | src/devcore/TrieHash.cpp:86-88 | Assigning keeps the entries sorted |
| TrieEntries.EntriesSorted | include/web3cpp/devcore/TrieDB.h:642-730 | A walk in order meets the keys of a tree in strictly ascending order |
| TrieEntries.EntriesFind | include/web3cpp/devcore/TrieDB.h:642-730 | Looking among the entries is looking in the tree |
| TrieEntries.SkipToIs | include/web3cpp/devcore/TrieDB.h:513-640 | On sorted entries a search skips exactly those before the key |
| TrieEntries.SkipBelow | include/web3cpp/devcore/TrieDB.h:544-567 | Below a two-item node off the path, all entries are skipped or all are kept |
| TrieEntries.SkipBranch | include/web3cpp/devcore/TrieDB.h:584-594 | In a branch the search goes on in one slot: nothing before it is kept and everything after it is |
| TrieIterator.Iterator.Begin | include/web3cpp/devcore/TrieDB.h:488-493 | begin() stands on the first entry, or at the end |
| TrieIterator.Iterator.LowerBound | include/web3cpp/devcore/TrieDB.h:495-500 | lower_bound stands on the first entry not before the key, or at the end |
| TrieIterator.Iterator.Next | include/web3cpp/devcore/TrieDB.h:642-730 | Goes on to the next of the entries still to come, or to the end; terminates |
| TrieIterator.Iterator.NextFrom | include/web3cpp/devcore/TrieDB.h:513-640 | Goes to the first of the entries still to come that is not before the key; terminates |
| TrieIterator.Iterator.SeekPair | include/web3cpp/devcore/TrieDB.h:542-582 | At a two-item node: skip it, stop at it, or go below |
| TrieIterator.Iterator.RunThrough | include/web3cpp/devcore/TrieDB.h:612-640 | The loop over the slots of a branch, from 16 over 0 to 15 to 17 |
| TrieIterator.Iterator.At | include/web3cpp/devcore/TrieDB.h:502-511 | Key and value of the entry the iterator stands on |
| TrieIteration.LessUnpack | include/web3cpp/devcore/TrieCommon.h:57-68 | Nibble order is byte order |
| Transaction.TransactionBase.FromRlp | src/ethcore/TransactionBase.cpp:27-92 | Reads exactly the transactions of the reference reader, and is null exactly where it throws |
| Transaction.TransactionBase.ReadSignature | src/ethcore/TransactionBase.cpp:55-80 | Tells chain id and recovery id apart: 27 and 28 leave the chain id absent, a v above 36 gives chain id (v-35)/2 and id (v-35) mod 2 |
| Transaction.TransactionBase.StreamRLP | src/ethcore/TransactionBase.cpp:158-185 | Appends one list of six or nine items to any stream, nothing for a null transaction, or throws for want of a signature |
| Transaction.TransactionBase.Rlp | include/web3cpp/ethcore/TransactionBase.h:93 | The encoding of the nine items; no bytes for a null transaction |
| Transaction.ThereAndBack | src/ethcore/TransactionBase.cpp:27-185 | Writing on a stream and reading with the list reader gives the transaction back exactly if it survives |
| Transaction.RawVBack | src/ethcore/TransactionBase.cpp:60-76 | v decodes to the chain id and recovery id it was made of exactly if the sum stays below 2^31, the chain id is not zero and the recovery id is 0 or 1 |
| Transaction.ReadIsWritten | src/ethcore/TransactionBase.cpp:27-92 | Accepted bytes are the encoding of the fields that were read, with v as it stood there |
| Solidity.PackMulti | src/Solidity.cpp:290-349 | Heads first, then tails, for every list of checked arguments |
| Solidity.PackBytesArray | src/Solidity.cpp:177-232 | Offsets of the elements, then each length with its digits filled up |
| Solidity.PackBytes | src/Solidity.cpp:121-141 | Offset, length, and digits filled up to whole words with zeros |
| Solidity.PackUintArray | src/Solidity.cpp:143-175 | Offset, number of elements, and a word for each |
| Solidity.PackedAlone | src/Solidity.cpp:251-289 | A packer by itself gives what packMulti gives for that one argument |
| Solidity.ElementAtPlace | src/Solidity.cpp:177-232 | Every element offset of a nested array is the true position of that element |
| Solidity.TailBack | src/Solidity.cpp:121-232 | A tail is read back from wherever its head says it is |
| Solidity.WordBack | src/Utils.cpp:355-364 | A word has 64 digits and the value it was made of |
| Solidity.RoundUp | src/Solidity.cpp:126 | The loop finds the least positive multiple of 64 that is not less than the length |
| LedgerEncoding.EncodeSignEthMessage | src/ledger/encoding.cpp:299-412 | The loops write exactly the reports of the chunks of path and transaction: three for every 150 bytes and as many as the rest takes, each of 65 bytes that begin 00 01 01 05 00 and its number within its package |
| LedgerEncoding.FillPayloads | src/ledger/encoding.cpp:311-342 | The loops cut the stream into chunks of 150 bytes |
| LedgerEncoding.ReportsBack | src/ledger/comms.cpp:98-103 | Reading the reports that way gives back the stream of bytes they were written for; only the first package is marked as first |
| LedgerPath.ParsePath | src/ledger/encoding.cpp:34-69 | The loop over the characters computes count and words, and throws on an empty or oversized index |
| LedgerPath.WordsOfJoined | src/ledger/encoding.cpp:46-58 | Components between slashes are read as their words |
| Ripemd.MDfinish | src/devcrypto/Hash.cpp:332-360 | One last block, or two where the length no longer fits, fold the tail with its padding |
| Ripemd.PutTail | src/devcrypto/Hash.cpp:336-346 | The bytes of the tail and the one bit are put into the zeroed words |
| Ripemd.XorDisjoint | src/devcrypto/Hash.cpp:342-346 | Where no bit is set in both, exclusive or is addition |
| Wei.ToWei | src/Utils.cpp:292-325 | The loops compute the shifted numeral, or nothing for a bad character or too long a fraction |
| Wei.FromWei | src/Utils.cpp:333-347 | The loop and the insertion place the point |
| Base64.ToBase64 | src/devcore/Base64.cpp:48-103 | The buffered loop writes, one by one, the letter of the standard alphabet for the six bits that stand there, with zeros behind the end, for ceil(8n/6) characters, and = up to 4*ceil(n/3) |
| Base64.FromBase64 | src/devcore/Base64.cpp:115-160 | The buffered loop reads groups until a character that is not in the alphabet |
| Decimals.StrippedIs | src/Utils.cpp:322-323 | Erasing leading zeros leaves the numeral of the value |
| HexPrefix.HexPrefixBytes | src/devcore/TrieCommon.cpp:29-97 | Every byte of a prefixed key: an even one begins 0x20 for a leaf and 0x00 else, an odd one 0x30 or 0x10 with its first nibble, and every further byte is sixteen times a nibble and the next one |
| HexPrefix.HexPrefixBits | include/web3cpp/devcore/TrieCommon.h:80-96 | isLeaf and keyOf look at the bits 0x20 and 0x10 of the first byte, and nothing else |
| HexPrefix.HexPrefixExamples | src/devcore/TrieCommon.cpp:13-27 | The examples the source gives for its notation |
| HexPrefix.UnpackHalves | src/devcore/CommonData.cpp:94-104 | asNibbles puts the high half of every byte before its low half |
| TrieNode.NodeForm | include/web3cpp/devcore/TrieDB.h:1033-1160 | The empty node is 0x80; the first string of a two-item node begins with 0x20 to 0x3f exactly if it is a leaf, else with 0x00 to 0x1f; a branch has seventeen items with its value last; a child is written in place up to 31 bytes and by its hash from 32 on |
| TrieRoots.ExampleRoots | src/devcore/TrieHash.cpp:14-97 | Every valid trie that is empty, holds one short pair, or holds two long values under keys that share a nibble has as its root the hash of these very bytes: leaf, branch, extension and their references |
| TrieExamples.OneKeyRoot | src/devcore/TrieHash.cpp:14-35 | Every canonical tree that binds the key 01 to 07 alone has the root node c4 82 20 01 07 |
| TrieExamples.TwoKeyRoot | src/devcore/TrieHash.cpp:14-79 | Every canonical tree that binds 11 and 12 to two values of 40 bytes has this extension over this branch over these leaves, for any hash function |
| TrieIteration.BytesLessAt | include/web3cpp/devcore/TrieCommon.h:57-68 | In the order of iteration the first differing byte decides, and where there is none the shorter key comes first |
| CommonData.BigEndianFirst | include/web3cpp/devcore/CommonData.h:120-127 | The first byte weighs 256 to the number of bytes behind it |
| Rlp.StringForms | src/devcore/RLP.cpp:279-298 | A byte below 0x80 stands for itself; up to 55 bytes follow 0x80 and their number; more follow 0xb7 and the size of their number, and the number |
| Rlp.ListForms | src/devcore/RLP.cpp:259-277 | The same for the items of a list, with 0xc0 and 0xf7 |
| Rlp.LengthsTaken | src/devcore/RLP.cpp:142-198 | The length the reader takes from every first byte, or throws: a single byte below 0x80 behind 0x81, a leading zero, less than 56 or more than 0xfffffffffffffefe |
| Transaction.RawVNumbers | src/ethcore/TransactionBase.cpp:134-141 | v is 27 and the recovery id without chain id, else 35, twice the chain id and the recovery id, of which 32 bits count as an int |
| Transaction.ReadV | src/ethcore/TransactionBase.cpp:55-80 | The bytes of nine items with r or s not zero are read exactly if v is 27 or 28, or above 36 with (v-35)/2 below 2^64, and, if checked, r and s lie between zero and the group order; the transaction read has all its fields as written, no chain id in the first case and (v-35)/2 in the second |
| TransactionForms.UnsignedItems | src/ethcore/TransactionBase.cpp:163-169 | The six items in their order, nothing for the address of a creation |
| TransactionForms.SigningItems | src/ethcore/TransactionBase.cpp:183-184 | Chain id and two empty strings behind the six |
| TransactionForms.SignedItems | src/ethcore/TransactionBase.cpp:171-182 | v, r and s behind the six: the bytes of v are 27 + id, or those of 2*chainId+35+id, or of the chain id modulo 2^32 under a zero signature |
| TransactionForms.StringsTaken | src/ethcore/TransactionBase.cpp:36-53 | A string is taken for a number exactly if it has at most 32 bytes and no leading zero, for an address if it has 20 |
| TransactionForms.ExampleForSigning | src/ethcore/TransactionBase.cpp:158-185 | The bytes to be signed in the example of EIP-155 |
| TransactionForms.ExampleSigned | src/ethcore/TransactionBase.cpp:158-185 | The signed transaction of that example, with any r and s of 32 bytes: v is 37 or 38 on chain 1, 27 or 28 without a chain |
| Solidity.TextFilledUp | src/Utils.cpp:372-381 | In every packing without miscounted arrays the words of a bytes argument or string hold its length, its digits, and behind the last of them only zeros, up to the next multiple of 64 |
| Solidity.TextsFilledUp | src/Solidity.cpp:177-232 | The same for every element of an array of texts, found by its offset |
| Solidity.TextTailDigits | src/Solidity.cpp:121-131 | The tail of a text by itself, digit by digit |
| Solidity.WordDigits | src/Utils.cpp:355-364 | Digit by digit, a word is its number in base 16, the last digit counting single units, with zeros in front |
| LedgerEncoding.SentBytes | src/ledger/encoding.cpp:299-412 | Every byte of every report: package k carries the 150 bytes from 150*k on of the path, as far as it fits 52 bytes, and the transaction; its first report is 00 01 01 05 00 00 00 (5+n) e0 04 P1 00 n and 52 bytes, the others 00 01 01 05 00 i and 59 or 39 bytes, with zeros behind the end |
| LedgerEncoding.ReportCount | src/ledger/encoding.cpp:311-412 | Three reports to every 150 bytes; one, two or three for a rest up to 52, up to 111 or above |
| LedgerPath.PathBytes | src/ledger/encoding.cpp:34-69 | Every byte of a printed path that was parsed: the first of the four bytes of an index is 128 more if it is hardened |
| LedgerPath.FirstAccount | src/ledger/encoding.cpp:34-69 | The path 44'/60'/0'/0 as bytes |
| Base64.Alphabet | src/devcore/Base64.cpp:97-100 | Digit n is letter n of the alphabet |
| Base64.Base64Characters | src/devcore/Base64.cpp:48-103 | Character i of an encoding is the letter for the bits 6*i to 6*i+5 of the bytes, zeros behind the end, or padding |
| Base64.Base64Bytes | src/devcore/Base64.cpp:115-160 | Any text is decoded up to the first character that is not in the alphabet: byte m is made of the bits 8*m to 8*m+7 of the letters, as many whole bytes as there are |
| Ripemd.InitialBytes | src/devcrypto/Hash.cpp:121-130 | The bytes of the initial words are 01 23 45 67 89 ab cd ef fe dc ba 98 76 54 32 10 f0 e1 d2 c3 |
| Ripemd.PaddedBytes | src/devcrypto/Hash.cpp:332-360 | Behind the input 0x80, zeros, and the number of bits in eight bytes, lowest first, to as few whole blocks as that takes |
| Ripemd.FoldBlocks | src/devcrypto/Hash.cpp:384-419 | Blocks are compressed one after the other, from the front |
| Decimals.DigitsWritten | src/Utils.cpp:297 | The digits are 0123456789 in this order |

## Left out

- TrieDB.GenericTrieDB.Remove: where a value is taken for a hash the code grafts the node it names and goes on to another root; the model stops there, and says of that outcome only that no node has left the store. Where the code leaves key or node the model stops too; what reading there would do, and the counts after a throw that left a value alone, are not modelled.
- TrieDB.GenericTrieDB.DeleteAt: the same.
- TrieDB.GenericTrieDB.DeleteInto: the same.
- TrieDB.GenericTrieDB.Collapse: the same.
- TrieDB.GenericTrieDB.constructor: counts are claimed for a trie that owns its store; two tries over one store are not modelled.
- StateCacheDB.DB.Insert: counts are unbounded, where the code's 32-bit counts would wrap after 2^32 references.
- StateCacheDB.DB.Purge: the auxiliary table, which only FatGenericTrieDB uses, is not there to be purged.
- TrieNode.NodeRead: nodes are shorter than the reader's own limit, just below 2^64 bytes.
- TrieIterator.Iterator.Next: the trie is not changed while an iterator walks it.
- TrieHash.Rlp256: keys are shorter than 2^31 - 1 bytes, so that the 32-bit nibble counters do not wrap.
- Solidity.PackMulti: arguments are taken after their types have been checked and texts turned into hex digits, and offsets do not wrap at 64 bits.
- Transaction.TransactionBase.FromRlp: the check level that also recovers the sender is left out with secp256k1.
- Transaction.TransactionBase.RawV: an int sum that overflows by one is taken to wrap, which the language leaves undefined; no transaction survives there either way.
- LedgerPath.ParsePath: the flag for a hardened index, which the code does not initialise, starts as false.
- Local RLPStreams in GenericTrieDB are lists of items; what the stream makes of them is proved in RlpStream and RlpWriting.
- Nibble slices inside GenericTrieDB and its iterator are sequences of nibbles; the slice operations are proved to agree in HexPrefix.
- FatGenericTrieDB, HashedGenericTrieDB and the auxiliary table of StateCacheDB: thin layers over what is modelled.
- Sender recovery and signing: secp256k1 is library code.
- Stream printing, debug output, JSON parsing, type and checksum checks, exception texts, file system, network and device input.
- encodePersonalSignMessage, encodeBip32Message and URL-safe Base64: the decoder does not accept the latter's alphabet, and the former two add no harder layout.
- Blake2 and the rounds of the RIPEMD compression: straight-line mixing.
