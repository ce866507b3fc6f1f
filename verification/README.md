# Proofs about deepin-pw-check

deepin-pw-check decides whether a new password is good enough, verifies a password against a stored hash, and
keeps the configuration file that holds the rules. This project models the three parts of it that have real
algorithms in them, and proves what they do.

**The hash stack** (`CBytes`, `Md5Rfc`, `Md5Compression`, `Md5`, `Md5Examples`, `Md5Crypt`, `Md5CryptFacts`,
`BigCrypt`, `PasswdCompare`). `Md5Rfc` is the definition of sections 3.1 to 3.5 of RFC 1321 on whole messages,
and `Md5Examples` computes three of the digests that the RFC prints with it, step by step. `Md5` is the
context of lib/md5.c as a class whose arrays are updated in place; any way of cutting a message into updates,
on a little-endian or a big-endian machine, gives the digest of `Md5Rfc`. `Md5Crypt` drives two such contexts
through the updates of `crypt_md5` and arrives at a definition by whole messages, of which `Md5CryptFacts`
says byte by byte what they are. `BigCrypt` refines a recursive chain of DES segments inside fixed buffers. On
top, `PasswdCompare` proves which stored hashes `verify_pwd` accepts: exactly those in the image of the two
hash functions, because a hash is its own salt.

**The policy engine** (`Palindrome`, `RunScanners`, `MonotoneRuns`, `TypePolicy`, `PolicyGrowth`, `Classes`,
`PwCheck`). Each scanning loop is kept as it is written, tokenising in place included, and proved equal to a
statement about stretches of the password or groups of the policy. Then: what the scanners miss, with exact
conditions; that relaxing a configuration never rejects an accepted password; and what the server defaults
promise.

**The configuration file** (`PolicyFile`, `PolicyRewrites`). The rewriting of the file as text and the line
reader that takes the policy out of it again: which policies can be read, when one survives a rewrite, and
when repeated rewriting settles, each exactly.

A `char` is a byte (`CBytes.byte`); a C string is a sequence without NUL. `RunScanners` compares codes as
signed, as on x86; elsewhere only codes below 128 are compared, and the sign does not matter. A 32-bit word is
an integer below 2^32 with its wrap-around written out; only the four boolean functions and the rotation of
MD5 are on bit-vectors.

Where names or comments and code differ, the model follows the code:

- The counter called "increase" in `is_monotone_character` counts steps to a lower code
  (lib/deepin_pw_check.c:419), which changes nothing, because both counters are compared alike.
- A keyboard step to the left is only counted when the key also has a right neighbour
  (lib/deepin_pw_check.c:432), so runs that start on a row's last key are seen from the second key on; only
  `?>` and `/.`, which are falling codes too, are caught from the first (`LeftwardRunIff`).
- The palindrome scan stops early (lib/deepin_pw_check.c:233): it misses palindromes late in passwords of
  more than 4n characters, and a higher limit can catch what a lower one does not.
- A policy of 494 or 495 characters can be read but not written and read again (tool/pwd_conf_update.c:231),
  and so can one that begins with a space (`RewriteCanLosePolicy`).
- Adding a group of symbols to a policy allows more characters but can lower the number of groups that a
  password hits, because the groups behind it are paired anew (lib/deepin_pw_check.c:301-325).
- MD5's comment says that the bit count is MSB-first (lib/md5.c:115); the code and RFC 1321 put the
  low-order word first.

## Model

| member | source | states |
|---|---|---|
| Md5Rfc.PadZerosIsLeast | lib/md5.c:122-145 | the zeros that are filled in are the fewest that leave exactly 8 bytes of the last block free for the length |
| CBytes.Le32Is | lib/md5.c:41-44 | the four bytes of a word stand for it in base 256, low-order byte first |
| Md5Rfc.LengthBytesAre | lib/md5.c:148-149 | the length field is 8 times the byte count modulo 2^64 in base 256, low-order byte first |
| Md5Rfc.RotatedIsRotation | lib/md5.c:166-167 | shifting both ways and joining is a 32-bit rotation, for each of the sixteen amounts used |
| Md5Rfc.StateOfPrefix | lib/md5.c:100-106 | the chaining words after n blocks depend on those blocks only |
| Md5Rfc.PadInOneBlock | lib/md5.c:142-145 | at most 55 pending bytes: the padded message ends in the block they are in, laid out as written there |
| Md5Rfc.PadInTwoBlocks | lib/md5.c:134-141 | 56 to 63 pending bytes: that block is filled with zeros and one more block of 56 zeros and the length follows |
| Md5Compression.SelectionsAgree | lib/md5.c:159-161 | for all words, the optimised F1 is the RFC's F and F2, F1 with turned arguments, is the RFC's G |
| Md5Compression.StepAgrees | lib/md5.c:166-167 | one macro call, with its nested wrapping additions, is one step of the RFC's table-driven round |
| Md5Compression.FourStepsAgree | lib/md5.c:183-186 | four calls on the registers a, d, c, b in turn are four steps of the RFC, which renames the registers after each |
| Md5Compression.Round1 | lib/md5.c:183-198 | the first 16 unrolled lines are steps 1 to 16: words, constants and shifts of the RFC's tables |
| Md5Compression.Round2 | lib/md5.c:200-215 | the next 16 are steps 17 to 32 |
| Md5Compression.Round3 | lib/md5.c:217-232 | the next 16 are steps 33 to 48 |
| Md5Compression.Round4 | lib/md5.c:234-249 | the last 16 are steps 49 to 64 |
| Md5Compression.Transform | lib/md5.c:174-255 | in place, the chaining words become the RFC's compression of the old ones with the block |
| Md5Examples.DigestOfNothing | lib/md5.c:54-255 | the digest of the empty message is d41d8cd98f00b204e9800998ecf8427e, as section A.5 of RFC 1321 prints it |
| Md5Examples.DigestOfAbc | lib/md5.c:54-255 | that of abc is 900150983cd24fb0d6963f7d28e17f72 |
| Md5Examples.DigestOfEighty | lib/md5.c:54-255 | that of the eighty digits of the RFC, two blocks, is 57edf4a22be3c955ac49da2e2107b67a |
| Md5.ReverseWord | lib/md5.c:42-44 | rewriting one word from its little-endian bytes reverses its four bytes on a big-endian machine, leaves them on others, and touches nothing else |
| Md5.ByteReverse | lib/md5.c:38-47 | all the words asked for are rewritten so, nothing else is; on x86 nothing happens |
| Md5.LoadWordsAfterReverse | lib/md5.c:93-94 | after byteReverse, a machine of either byte order reads the 16 little-endian words of the block |
| Md5.LoadLengthBlock | lib/md5.c:146-151 | reversing 14 words and storing the two counter words as they are gives the block whose last 8 bytes are the counter, low-order byte first, on every machine |
| Md5.ReverseOfStores | lib/md5.c:152-153 | the digest bytes are the four words low-order byte first on every machine |
| Md5.CounterStep | lib/md5.c:75-78 | if the two words hold 8 times the byte count modulo 2^64 they do so after len more bytes: truncating shift, carry test and len >> 29 together lose nothing |
| Md5.CounterPending | lib/md5.c:80 | the low word gives the byte count modulo 64, also after it has wrapped |
| Md5.CounterBytes | lib/md5.c:149 | the stored counter is the length field of section 3.2 of RFC 1321 |
| Md5.MD5Context.Init | lib/md5.c:54-63 | establishes the invariant for the empty message |
| Md5.MD5Context.ProcessBlock | lib/md5.c:93-94 | the chaining words become the compression of the buffer as 16 little-endian words, on every machine |
| Md5.MD5Context.AddLength | lib/md5.c:75-78 | the counter is exact for len more bytes |
| Md5.MD5Context.TakeBlock | lib/md5.c:92-94 | completing the buffer to one block of the message advances the state by that block |
| Md5.MD5Context.TakeRest | lib/md5.c:108-110 | bytes that fill no block are kept: the invariant holds for the whole message |
| Md5.MD5Context.TakeBlocks | lib/md5.c:100-110 | the loop over whole blocks with the rest: the invariant holds for the whole message |
| Md5.MD5Context.Update | lib/md5.c:69-111 | the invariant (state = fold over the full blocks, buffer head = unprocessed tail, exact counter) is kept, and the message grows by exactly the data, for empty and multi-block data too |
| Md5.MD5Context.TakePadding | lib/md5.c:122-145 | both padding cases lead to the state before the last block of the padded message and to a buffer that starts with that block, whatever the buffer held |
| Md5.MD5Context.TakeLengthBlock | lib/md5.c:146-151 | the last block is compressed with the length field at its end |
| Md5.MD5Context.Emit | lib/md5.c:152-153 | the digest is the state, low-order bytes first |
| Md5.MD5Context.Final | lib/md5.c:117-155 | the digest is that of RFC 1321 for everything taken in since Init, and the context is all zeros |
| Md5.DigestAtOnce | lib/md5.c:257-263 | the one-call form gives the digest of RFC 1321 |
| Md5.DigestInPieces | lib/md5.c:17-21 | every way of cutting a message into updates, on every kind of machine, gives the digest of the whole |
| Md5Crypt.StretchAt | lib/md5_crypt.c:89-90 | the loop appends exactly as many bytes as the password has: byte k is byte k mod 16 of the inner digest |
| Md5Crypt.BitWalkAt | lib/md5_crypt.c:95-100 | one byte for each binary digit of the length, lowest first: NUL for a 1, the first password character for a 0 |
| Md5Crypt.From64OfTo64 | lib/md5_crypt.c:26-32 | n digits of to64 read back as v for every v below 64^n, and contain no terminator |
| Md5Crypt.GroupInjective | lib/md5_crypt.c:136-138 | four printed digits determine their three digest bytes |
| Md5Crypt.PackInjective | lib/md5_crypt.c:134-153 | the 22 printed characters determine all 16 digest bytes |
| Md5Crypt.HashIsCString | lib/md5_crypt.c:102-154 | the hash contains no terminator |
| Md5Crypt.TrueSaltOfHash | lib/md5_crypt.c:61-70 | the salt that is read out of a hash is the salt it was made with, for every salt argument |
| Md5Crypt.HashIsFixpoint | lib/md5_crypt.c:61-70 | hashing with a hash as the salt gives that hash again |
| Md5Crypt.HashesEqual | lib/md5_crypt.c:134-154 | two passwords have equal hashes under a salt iff their final digests are equal |
| Md5CryptFacts.TrueSaltIs | lib/md5_crypt.c:61-70 | with or without $1$ in front, the salt is what stands before the first $, or the first eight characters |
| Md5CryptFacts.InnerDigestIs | lib/md5_crypt.c:83-88 | the inner digest is that of the bytes password, salt, password |
| Md5CryptFacts.FirstMessageIs | lib/md5_crypt.c:74-100 | the first message byte by byte: password, $1$, salt, inner digest over the length of the password, one byte for each binary digit of the length |
| Md5CryptFacts.RoundMessageIs | lib/md5_crypt.c:116-130 | the message of a round in each of the eight cases that the number of the round modulo 6 and 7 makes |
| Md5CryptFacts.RoundMessageLength | lib/md5_crypt.c:116-130 | how many bytes a round takes in |
| Md5CryptFacts.TakenInIs | lib/md5_crypt.c:114-132 | how many the first n rounds take in, in closed form |
| Md5CryptFacts.AllRoundsTakeIn | lib/md5_crypt.c:114-132 | all rounds take in 16000 bytes, 1857 times the password and 666 times the salt |
| Md5CryptFacts.FirstAndLastRound | lib/md5_crypt.c:114-132 | rounds 0, 1 and 999 written out; 999 is the last |
| Md5CryptFacts.DigitsAre | lib/md5_crypt.c:23-24 | the 64 digits in order: dot, slash, figures, capitals, small letters |
| Md5CryptFacts.PackIs | lib/md5_crypt.c:134-153 | which digest bytes each group of printed digits stands for: k, k + 6 and k + 12, then 4, 10 and 5, then 11 |
| Md5CryptFacts.HashParts | lib/md5_crypt.c:102-154 | a hash is $1$, the true salt, $ and the 22 digits |
| Md5Crypt.To64Into | lib/md5_crypt.c:26-32 | in place: the n digits of v at the pointer, nothing else changed |
| Md5Crypt.SaltEnd | lib/md5_crypt.c:65-67 | the pointer stops after the characters before the first $, at most 8 |
| Md5Crypt.RefineSalt | lib/md5_crypt.c:52-70 | a leading $1$ is skipped, then the above |
| Md5Crypt.UpdateStretched | lib/md5_crypt.c:89-90 | the context has taken in the stretched digest after what it had |
| Md5Crypt.UpdateBits | lib/md5_crypt.c:92-100 | the context has taken in the bit-walk after what it had |
| Md5Crypt.ComputeInner | lib/md5_crypt.c:83-88 | the inner digest is MD5 of password, salt, password |
| Md5Crypt.ComputeFirst | lib/md5_crypt.c:72-107 | with two contexts, the digest before the rounds is MD5 of one concatenation |
| Md5Crypt.UpdateIf | lib/md5_crypt.c:121-125 | the piece is taken in exactly on the condition |
| Md5Crypt.RunRound | lib/md5_crypt.c:114-131 | round i is MD5 of password, salt and old digest in the order and selection that i mod 2, 3 and 7 give |
| Md5Crypt.RunRounds | lib/md5_crypt.c:114-132 | the loop, which rewrites the digest buffer, is the 1000-fold recursion |
| Md5Crypt.ComputeFinal | lib/md5_crypt.c:72-132 | the digest that is printed is the pure definition, whatever the byte order of the machine |
| Md5Crypt.Print | lib/md5_crypt.c:134-154 | the six groups and the terminator, behind what was there |
| Md5Crypt.AppendDigest | lib/md5_crypt.c:134-154 | the C string in the buffer grows by the packed digest |
| Md5Crypt.WriteSetting | lib/md5_crypt.c:102-105 | $1$, the true salt and $, within the 120-byte buffer |
| Md5Crypt.CryptMd5 | lib/md5_crypt.c:40-160 | for every password and salt the returned string is the pure definition |
| BigCrypt.SegmentCountIs | lib/bigcrypt.c:49-57 | the number of segments is the length in eights rounded up, at least 1 and at most 16 |
| BigCrypt.ChainShape | lib/bigcrypt.c:77-94 | n segments give 11 n characters, all from ./0-9A-Za-z |
| BigCrypt.EncryptedShape | lib/bigcrypt.c:11-16 | the output starts with the salt, has 13 + 11 (segments - 1) characters from the alphabet, and fits CBUF_SIZE with its terminator |
| BigCrypt.BufferedIs | lib/bigcrypt.c:38-57 | 130 characters of the key reach the buffer, or 8 for a salt of 13; the number of segments is that of the key itself |
| BigCrypt.LengthByKey | lib/bigcrypt.c:47-57 | the length of the output by the length of the key: 11 more characters for every eight that are begun, up to 178 |
| BigCrypt.ChainLinks | lib/bigcrypt.c:78-92 | in a chain each eight characters of the key are encrypted under the segment before them |
| BigCrypt.SegmentIs | lib/bigcrypt.c:62-93 | the output segment by segment: the first eight characters under the salt, each further eight, up to character 128, under the segment before |
| BigCrypt.ChainReads | lib/bigcrypt.c:78-92 | n segments depend on the first 8 n characters of what is left of the key only |
| BigCrypt.ChainPrefix | lib/bigcrypt.c:78-92 | fewer segments succeed too and give a prefix |
| BigCrypt.OnlyFirst128Matter | lib/bigcrypt.c:38-57 | keys with the same first 128 characters give the same result, failure included |
| BigCrypt.SegmentsGivePrefix | lib/bigcrypt.c:44-96 | for salts that are not 13 long, the output for the first 8 m characters is a prefix of the output for the key |
| BigCrypt.EncryptedIsFixpoint | lib/bigcrypt.c:41-45 | the output as salt gives the output again, also where its length 13 cuts the key; its first 13 characters as salt give those 13 |
| BigCrypt.FillKeybuf | lib/bigcrypt.c:35-47 | the key buffer holds at most 130 characters, at most 8 if the salt is 13 long |
| BigCrypt.FirstSegmentInto | lib/bigcrypt.c:59-74 | the first segment sets up the state between segments, or the whole fails |
| BigCrypt.AddSegment | lib/bigcrypt.c:80-92 | one turn of the loop keeps it: what is written, followed by the segments that are left, is the whole buffer |
| BigCrypt.AddSegments | lib/bigcrypt.c:77-94 | the loop finishes the buffer, or the whole fails |
| BigCrypt.SegmentsAreChain | lib/bigcrypt.c:78-93 | for DES, the segments that are padded into the buffer and salted from it are the segment chain |
| BigCrypt.LongEncryptedIs | lib/bigcrypt.c:18-97 | for DES, the string in the buffer is the recursive segment chain, failure included |
| BigCrypt.EncryptLong | lib/bigcrypt.c:18-97 | for every salt, one that names another method included, the string in the filled buffer is the one of the pure definition by strncpy; null iff libc fails on some segment |
| PasswdCompare.StripsOnce | lib/passwd_compare.c:16-30 | stripping twice is stripping once |
| PasswdCompare.StrippedExactly | lib/passwd_compare.c:22-29 | where an unprefixed hash is cut: at the first character after the 13th that is foreign to the alphabet; nothing else is cut |
| PasswdCompare.StripHpuxAging | lib/passwd_compare.c:16-30 | in place: unprefixed hashes of more than 13 characters end before the first foreign character after them, others stay |
| PasswdCompare.VerifyPwd | lib/passwd_compare.c:37-81 | the returned value is the pure decision on the stripped hash; the overwrite at line 63 is never reached |
| PasswdCompare.EncryptedLength | lib/passwd_compare.c:62-64 | a 13-character hash never meets a longer encryption |
| PasswdCompare.AcceptsExactlyMd5Hashes | lib/passwd_compare.c:54-59 | a $1$ hash is accepted iff it is the hash of the password under some salt |
| PasswdCompare.AcceptsExactlyEncryptions | lib/passwd_compare.c:60-64 | an unprefixed hash of 13 or more characters is accepted iff, stripped, it is the encryption of the password under some legal salt |
| PasswdCompare.NeverAccepted | lib/passwd_compare.c:51-67 | locked accounts and shorter unprefixed hashes are refused for every password |
| PasswdCompare.EmptyHashOrPassword | lib/passwd_compare.c:45-52 | an empty hash is accepted iff that is allowed, no password never for any other; the answer is 0 or 1 |
| PasswdCompare.AcceptsExactlyPrefixed | lib/passwd_compare.c:65-70 | a hash of another method is accepted iff libc gives it back for the password |
| PasswdCompare.StoredVariantsAccepted | lib/passwd_compare.c:22-29 | the encryption of a password, its first 13 characters, and it with any suffix that starts outside the alphabet are all accepted |
| PasswdCompare.AcceptsEqualDigests | lib/passwd_compare.c:54-70 | a password passes for another one's $1$ hash iff the two final digests under that salt are equal |
| Palindrome.IsPalindrome | lib/deepin_pw_check.c:198-212 | at least 2 n characters, and equal to its mirror image |
| Palindrome.IncludesPalindrome | lib/deepin_pw_check.c:214-241 | for n of 1 or more: yes iff some mirrored stretch of 2 n or more characters starts before 2 n, or at 2 n and is longer or the password has exactly 4 n characters; the scan ends |
| Palindrome.CompleteWhenShort | lib/deepin_pw_check.c:214-241 | what is reported is there, and up to 4 n characters everything there is reported |
| Palindrome.CompleteExactlyWhenShort | lib/deepin_pw_check.c:233-235 | the scan finds every palindrome in all passwords of a length iff that is at most 4 n |
| Palindrome.LateRunIsMissed | lib/deepin_pw_check.c:233-235 | for every length above 4 n, a password whose palindrome is missed |
| Palindrome.ScanEnds | lib/deepin_pw_check.c:229-235 | the edge of the scan on four passwords: abcc and abcdc are caught with limit 1, abccd and abcdd are not |
| Palindrome.RaisingIsSafeExactlyWhenShort | lib/deepin_pw_check.c:214-241 | raising the limit from n to m catches no further password of a length iff that is at most 2 n + 2 m |
| Palindrome.HigherLimitCatchesMore | lib/deepin_pw_check.c:214-241 | abcdeed passes with limit 1 and not with limit 2 |
| RunScanners.CountingStep | lib/deepin_pw_check.c:419-437 | what one turn of a scanner does keeps the meaning of its counters: steps of each kind since the last reset, plus one |
| RunScanners.CountersAreMaximal | lib/deepin_pw_check.c:439-445 | a counter has reached the limit iff some stretch of steps that ends here has enough steps in one direction |
| RunScanners.KeysAreDistinct | lib/deepin_pw_check.c:378-384 | no character is on the keyboard twice |
| RunScanners.GetAdjacentCharacter | lib/deepin_pw_check.c:377-408 | the neighbours of the character, or those from before when it is on no row |
| RunScanners.KeysAreMostRecent | lib/deepin_pw_check.c:428 | the neighbours in force are those of the most recent character that is on a row |
| RunScanners.CountCodes | lib/deepin_pw_check.c:419-426 | the two code counters, which are reset together, keep their meaning |
| RunScanners.CountKeys | lib/deepin_pw_check.c:428-437 | so do the keyboard counters, with the carried neighbours |
| RunScanners.IsMonotoneCharacter | lib/deepin_pw_check.c:410-448 | yes iff some contiguous stretch has only steps of one code up or down, m - 1 of them one way, or the same for keyboard steps |
| MonotoneRuns.CodesDescribed | lib/deepin_pw_check.c:419-426 | which steps count as rising and falling: exactly those to the next code and from it |
| MonotoneRuns.KeyStepIs | lib/deepin_pw_check.c:428-437 | which count as keyboard steps: exactly those to the right neighbour of the most recent key, and to the left one of a key that has both |
| MonotoneRuns.MonotoneIs | lib/deepin_pw_check.c:410-448 | for every limit, yes iff some stretch has only steps to neighbouring codes, k - 1 of them one way, or only steps to neighbouring keys, k - 1 of them one way |
| MonotoneRuns.NothingToCatch | lib/deepin_pw_check.c:410-448 | a password without neighbours one code or one key apart is never caught |
| MonotoneRuns.RowsAre | lib/deepin_pw_check.c:378-384 | the keyboard rows: three rows of keys, the same with Shift, and the figures with Shift |
| RunScanners.CodeRunsAreCaught | lib/deepin_pw_check.c:419-426 | every run of m rising or falling codes is caught |
| RunScanners.RightwardRunsAreCaught | lib/deepin_pw_check.c:430-431 | every left-to-right run of m keys of a row is caught |
| RunScanners.LeftwardRunsAreCaught | lib/deepin_pw_check.c:432-433 | every right-to-left run of m keys that does not start on the last key of its row is caught |
| RunScanners.LeftwardRunIff | lib/deepin_pw_check.c:419-446 | the verdict on a password that is one right-to-left run of k keys, for every limit m of two or more: yes iff k > m, or k = m and it does not start on the last key of its row, or it is ?> or /. at limit 2 |
| RunScanners.LeftwardRunsCaughtIff | lib/deepin_pw_check.c:419-446 | a right-to-left run is caught wherever it stands in a password under the same condition, and only then |
| RunScanners.IsConsecutiveSameCharacter | lib/deepin_pw_check.c:450-467 | yes iff some stretch of equal neighbours is long enough |
| RunScanners.SameRunIs | lib/deepin_pw_check.c:450-467 | for limits of two or more that is: n equal characters in a row |
| RunScanners.SameRunOfOne | lib/deepin_pw_check.c:450-467 | for lower limits any two characters |
| RunScanners.ScannersAreAntitone | lib/deepin_pw_check.c:439-464 | what a higher limit catches a lower one catches, in both scanners |
| TypePolicy.IncludeChinese | lib/deepin_pw_check.c:257-271 | yes iff two neighbouring bytes have their high bit set |
| TypePolicy.SymbolIs | lib/deepin_pw_check.c:302-303 | the symbols are the codes 33 to 126 that are neither letters nor figures |
| TypePolicy.AllowedCharacters | lib/deepin_pw_check.c:297-328 | the characters allowed are those of the policy other than ; and the ; iff two groups were glued |
| TypePolicy.SemicolonIffGlued | lib/deepin_pw_check.c:316-321 | ; is allowed iff there are fewer groups than tokens |
| TypePolicy.GroupMembers | lib/deepin_pw_check.c:326-327 | every other character of the policy is in some group, and nothing else is |
| TypePolicy.GroupsFit | lib/deepin_pw_check.c:293-327 | all groups together never outgrow the policy, so 512 bytes hold them |
| TypePolicy.VerdictOfSet | lib/deepin_pw_check.c:273-369 | the verdict depends on the set of characters of the password only, apart from the two-high-bytes test |
| PolicyGrowth.LeadingSemicolon | lib/deepin_pw_check.c:291 | semicolons in front of a policy count for nothing |
| PolicyGrowth.LastGroup | lib/deepin_pw_check.c:308-323 | a group with nothing but semicolons behind it is not glued |
| PolicyGrowth.TwoGroups | lib/deepin_pw_check.c:301-325 | two groups are one iff both begin with symbols, and then the semicolon belongs to it |
| PolicyGrowth.TwoSemicolons | lib/deepin_pw_check.c:301-325 | with two semicolons between them iff the first does |
| PolicyGrowth.GroupsOfMarks | lib/deepin_pw_check.c:301-325 | of five symbol groups in a row the first two and the next two are glued; one more in front pairs them anew |
| PolicyGrowth.LastGroupIsSafe | lib/deepin_pw_check.c:297-343 | a group added behind a policy forbids no character and takes no hit away |
| PolicyGrowth.FirstGroupIsSafe | lib/deepin_pw_check.c:297-343 | nor does a group in front that begins with no symbol |
| PolicyGrowth.FirstGroupCanLose | lib/deepin_pw_check.c:301-325 | a group in front that begins with a symbol makes !$% hit one group less of !;@;#;$;% |
| PolicyGrowth.FirstGroupIsSafeIff | lib/deepin_pw_check.c:301-325 | a group in front never takes a hit away, for all passwords and policies, iff it begins with no symbol |
| TypePolicy.StrTok | lib/deepin_pw_check.c:291 | in place: the token before the next ; which becomes a terminator, and what is left |
| TypePolicy.NextToken | lib/deepin_pw_check.c:343 | the same in terms of the groups still to come |
| TypePolicy.GlueNext | lib/deepin_pw_check.c:313-322 | the next token, if there is one, joined by a ; in a buffer of its own |
| TypePolicy.LoadGroup | lib/deepin_pw_check.c:301-325 | the next group of the policy, read past terminators that were semicolons |
| TypePolicy.HasCharacterOf | lib/deepin_pw_check.c:329-342 | does the password have a character of the group |
| TypePolicy.AllExpected | lib/deepin_pw_check.c:350-362 | is every character of the password among those allowed |
| TypePolicy.CollectGroups | lib/deepin_pw_check.c:291-344 | the loop over the tokens collects exactly the groups and counts those that the password hits |
| TypePolicy.IsTypeValid | lib/deepin_pw_check.c:273-369 | for every password and policy below 512 bytes the result is the verdict by groups |
| Classes.StrengthLevel | lib/deepin_pw_check.c:494-513 | the level by length and number of classes, for all thresholds; error without a password |
| Classes.LevelIs | lib/deepin_pw_check.c:508-514 | each level iff length and number of classes both reach its thresholds, and no higher level does |
| Classes.ClassCountIs | lib/deepin_pw_check.c:496-507 | four classes iff there is a capital, a small letter, a figure and something else; none iff the password is empty |
| Classes.StrengthNeverDrops | lib/deepin_pw_check.c:494-513 | appending characters never lowers the level |
| Classes.BuiltInGroups | lib/deepin_pw_check.c:141-143 | the built-in policy has four groups, because the two symbol lists are glued |
| Classes.BuiltInAllows | lib/deepin_pw_check.c:141-143 | it allows exactly the codes 33 to 126 |
| Classes.BuiltInHits | lib/deepin_pw_check.c:291-344 | for passwords of such characters the groups hit are as many as the classes of the strength function |
| Classes.BuiltInPolicyCountsClasses | lib/deepin_pw_check.c:291-366 | with the built-in policy no error iff all codes are 33 to 126 and the required number of classes occurs |
| PwCheck.Check | lib/deepin_pw_check.c:519-618 | the result is that of the first check in the fixed order that complains, each check stated on its own |
| PwCheck.CheckEnabled | lib/deepin_pw_check.c:559-611 | the same for the checks after the empty test and the main switch |
| PwCheck.VerdictIs | lib/deepin_pw_check.c:549-613 | which result is returned when: the whole pipeline in order, each code with its condition, lengths, capitals and high bytes written out |
| PwCheck.AcceptedIffNoComplaint | lib/deepin_pw_check.c:549-613 | accepted iff no check complains |
| PwCheck.RelaxingKeepsAccepted | lib/deepin_pw_check.c:549-613 | lower minimum, higher maximum, fewer types, one more group of characters behind the policy or in front where that is safe, raised or dropped run limits, dropped uppercase and word checks, a dropped palindrome limit or one raised as far as is safe: an accepted password stays accepted |
| PwCheck.RaisingPalindromeLimitCanReject | lib/deepin_pw_check.c:582-587 | raising the palindrome limit alone can reject an accepted password |
| PwCheck.FirstGroupCanReject | lib/deepin_pw_check.c:575-579 | allowing one more group of symbols in front of a policy can reject an accepted password |
| PwCheck.DefaultPolicyIsRead | tool/pwd_conf_update.c:360-363 | a file written with the default policy gives the checker exactly that policy |
| PwCheck.AcceptedOnServer | tool/pwd_conf_update.c:84-98 | with the server defaults an accepted password has 8 to 510 codes from 33 to 126 of three classes, is not the user name or a dictionary word, and has no three equal, rising, falling or left-to-right keyboard characters, no right-to-left run of four keys or of three that does not start on the last one, and no palindrome that the scan reaches, so none of 8 characters if at most 16 long |
| PwCheck.ServerAcceptsIff | tool/pwd_conf_update.c:84-98 | which of the checks count with the server defaults, in both directions |
| PwCheck.ServerAccepts | tool/pwd_conf_update.c:84-98 | aB!cD@eF is accepted for every other user name if the dictionary does not have it |
| PolicyFile.TextFile.Gets | tool/pwd_conf_update.c:231 | fgets: the next characters through a newline, at most 511; the buffer is left alone at the end of the file |
| PolicyFile.ReadOfRender | tool/pwd_conf_update.c:294-507 | reading a rendered file parses the policy up to a newline and to 493 characters, whatever the other ten values are |
| PolicyRewrites.RoundTripIff | tool/pwd_conf_update.c:230-265 | the policy is read back unchanged iff it has no newline, at most 493 characters, and no space or double quote in front |
| PolicyRewrites.ReadIsReadable | tool/pwd_conf_update.c:230-265 | what is read from any file has no newline, no double quote in front, and a length that the quoting leaves room for |
| PolicyRewrites.ReadOfOneLine | tool/pwd_conf_update.c:230-265 | and every such policy is read from a file of one line |
| PolicyRewrites.ReadableIff | tool/pwd_conf_update.c:230-265 | some file is read as this policy iff it has no newline and no double quote in front and at most 495 characters, 494 if it begins with a space, 493 if it then also ends in a double quote |
| PolicyRewrites.OneLineReads | tool/pwd_conf_update.c:232-256 | what the line of that file is: the key, an equals sign, and the policy, quoted if it begins with a space |
| PolicyRewrites.OtherPieceIsPassedOver | tool/pwd_conf_update.c:230-232 | lines, and 511-character pieces of long ones, that do not begin with the key are passed over |
| PolicyRewrites.FirstPieceIsRead | tool/pwd_conf_update.c:232-263 | the first that does is read, whatever follows |
| PolicyRewrites.NoEqualsNoValue | tool/pwd_conf_update.c:236 | a line without an equals sign gives no value |
| PolicyRewrites.PieceParses | tool/pwd_conf_update.c:233-247 | otherwise what stands between the first one and the newline is parsed |
| PolicyRewrites.ValueIs | tool/pwd_conf_update.c:239-246 | spaces in front are dropped, and of a value that does not begin with a double quote nothing else |
| PolicyRewrites.QuotesAreDropped | tool/pwd_conf_update.c:242-256 | surrounding double quotes are dropped |
| PolicyRewrites.UndefinedIff | tool/pwd_conf_update.c:249-257 | the copy is undefined iff the value is nothing but double quotes |
| PolicyRewrites.RewriteKeepsPolicyIff | tool/pwd_conf_update.c:374-376 | a policy read from any file is read the same after a rewrite iff it has at most 493 characters and no space in front |
| PolicyRewrites.RewriteCanLosePolicy | tool/pwd_conf_update.c:374-376 | every readable policy that is longer or begins with a space comes from some file and is not read the same after a rewrite |
| PolicyRewrites.RewriteShortens | tool/pwd_conf_update.c:374-376 | a rewrite keeps the policy or makes it strictly shorter |
| PolicyRewrites.ParsingKeepsVanishing | tool/pwd_conf_update.c:238-257 | parsing a value once keeps whether it vanishes: only spaces and double quotes, and at the end no fewer double quotes than it has runs of them |
| PolicyRewrites.RewritesSettle | tool/pwd_conf_update.c:374-376 | repeated rewriting reaches a policy that is read as it was written, after no more rewrites than the policy has characters; it ends in an undefined copy instead iff the part that was kept first vanishes |
| PolicyFile.NumberLength | tool/pwd_conf_update.c:330-334 | an int prints in at most eleven characters |
| PolicyFile.DecimalIs | tool/pwd_conf_update.c:330-334 | the printed digits stand for the number, highest first, without a leading zero |
| PolicyFile.NumberIs | tool/pwd_conf_update.c:330-334 | so do those behind the sign of a negative one |
| PolicyFile.LinesAre | tool/pwd_conf_update.c:294-507 | each of the twelve lines: its key and the field it carries |
| PolicyFile.RenderIs | tool/pwd_conf_update.c:294-507 | the text is these lines in this order |
| PolicyFile.ResolvedIs | tool/pwd_conf_update.c:300-506 | each field is the entry of the old file, or the default when it has none |
| PolicyFile.RenderFits | tool/pwd_conf_update.c:294-507 | the text is at most 334 characters longer than policy and dictionary path, so 2048 bytes hold it for policies that were read and paths up to 1024 |
| PolicyFile.StrChr | tool/pwd_conf_update.c:233-234 | the first occurrence of the character before the terminator |
| PolicyFile.SkipAll | tool/pwd_conf_update.c:239-245 | the pointer is behind all leading occurrences of the character |
| PolicyFile.Delimit | tool/pwd_conf_update.c:233-261 | the two cases, with and without a newline, delimit the same value as the parser by strings; the length is -1 iff that is undefined |
| PolicyFile.CopyValue | tool/pwd_conf_update.c:233-262 | the value is copied with its terminator, and nothing is copied when there is no =; undetermined iff the length is -1 |
| PolicyFile.GetValidatePolicy | tool/pwd_conf_update.c:222-267 | the value of the first line, or 511-character piece of one, that starts with the key, for every file; the outcome says whether it is copied, the buffer untouched (no file, no such line, no =) or undetermined; the same for the copy in lib/deepin_pw_check.c:56-101 |
| PolicyFile.AppendLine | tool/pwd_conf_update.c:501-506 | one sprintf at the moving offset adds one line |
| PolicyFile.RenderConf | tool/pwd_conf_update.c:294-507 | the text is the twelve lines with the values of the old file or the defaults, the policy being what the line reader finds; or no text is determined, iff iniparser finds an entry and the line reader no value |

## Left out

- libc's `crypt`: DES is an arbitrary function of the first 8 characters and a legal two-character salt that returns that salt and 11 characters of the alphabet, or fails; on an illegal salt without prefix it fails (`BigCrypt.ConstantIsDes` gives a function of this kind that succeeds for every legal salt); the other prefixed methods (`$5$`, `$6$`, `$y$`) are arbitrary.
- BigCrypt.EncryptLong: of methods other than DES only that a result has two characters or more is supposed, as libxcrypt's failure tokens have; behind a shorter one the code would read past the terminator.
- Allocation failure, `_pw_check_overwrite` and the freeing of results: contents of memory after use are not modelled, except that MD5Final clears its context.
- Md5Rfc.Sine: the 64 constants are a table, not shown to be values of the sine; all of them enter the digests of `Md5Examples`.
- Md5Compression.Transform: the 64 lines of the C function are four methods of sixteen; crypt_md5, bigcrypt, is_type_valid, get_validate_policy and update_conf are split into several methods in the same way.
- Md5Crypt.Print: shifts and ors of disjoint bytes are sums; the same in `CBytes.FromLe32`.
- Md5Crypt.CryptMd5: passwords of 2^31 characters or more, whose length does not fit the `int` counters; the other `int` lengths and offsets are unbounded in the same sense.
- TypePolicy.IsTypeValid: policies of 512 bytes and more, which its buffers do not hold; no policy that the reader returns is that long.
- TypePolicy.IncludeChinese: the loop that stops at the terminator is one that stops at the end of a sequence.
- RunScanners.IsMonotoneCharacter: platforms with unsigned `char`.
- Palindrome.IncludesPalindrome: the copy that runs past the terminator when a_p > b_p is modelled by its content up to the first NUL.
- PwCheck.Check: loading the configuration (iniparser, the retry that runs pwd-conf-update, the merging of the dictionary path) is a parameter, and so is cracklib's dictionary search (lib/word_check.c), as an oracle; thresholds are unbounded integers.
- PolicyFile.GetValidatePolicy: what the code goes on to do when the outcome is undetermined: for an empty file it compares an uninitialised line buffer, for a value of nothing but double quotes it copies with length -1.
- PolicyFile.RenderConf: which entries the old file has and their numbers come from iniparser and are a parameter; what is printed for an entry that iniparser finds and the line reader does not (a key in lower case or indented, say), which is an uninitialised buffer, in load_pwd_conf (lib/deepin_pw_check.c:140-150) too; texts that overflow the 2048-byte buffer; opening, writing and chmod of the file; detection of the system type and the default tables other than in `PwCheck.AcceptedOnServer`.
- PolicyRewrites.RewritesSettle: supposes that iniparser reads the ten other values back as they were written.
- The PAM module (pam/pam.c), the D-Bus service (service/), the getters, the grub2 variants, messages and translations: no algorithms of their own, or dependent on libraries that are not part of this model.
