# Baseball-cap customiser: the logic, modelled in Dafny

This project is a model of the logic of a browser-based 3D baseball-cap
customiser: users keep a set of named caps (colour, letter, letter colour,
playlist), one of them selected, see the cap rendered, and hear background
music. The model covers the four pieces of that application that compute
something, and proves what they promise:

- **The cap store** (`CapsAtoms`, `caps_atoms.dfy`): the record of caps keyed
  by id with the selected id, its seed, the add/remove/update writes (each a
  function from the old record to the new one) and the two read-only views,
  which give an empty playlist the default `"lofi"`.
- **The complementary background colour** (`BaseballCap`,
  `baseball_cap.dfy`, and its copy in `MiniBaseballCap`,
  `mini_baseball_cap.dfy`): remove the first `#`, read three two-digit hex
  channels, replace each channel `x` by `255 - x` and write the colour back as
  `#` and six lower-case hex digits. The model proves the output format, the
  per-channel arithmetic, that complementing twice gives back the input in
  lower case, and that the copy in the small viewer computes the same function
  (and is never used for the background there).
- **The music player** (`BackgroundMusic`, `background_music.dfy`): the
  Fisher–Yates shuffle of the bundled songs (an imperative method over an
  array, with the random index as an arbitrary choice in range), the cyclic
  next/previous index arithmetic and the flag that blocks a second song change
  while one is under way (a class whose methods update the player state), and
  the path-to-title helper, proved equal to an independent character-by-
  character definition of title case.
- **The add-cap form** (`AddCapForm`, `add_cap_form.dfy`): the validation
  schema's rules on the five fields, the issues it reports, the default form
  values, the submit path that lets only valid data through, and the
  normaliser that keeps the letter field to one upper-case character.

`JsString` (`js_string.dfy`) models the JavaScript built-ins these use:
`replace` of the first occurrence and of all occurrences of one character,
`split`/`join` on one character, `pop`, `padStart`,
`Number.prototype.toString(16)`, `parseInt(_, 16)` on hex digits, ASCII
`toUpperCase`, and the `%` operator (truncating toward zero). It also holds
the helpers their specifications are stated with: the first and last
position of a character (the search inside `replace`, and the last `/` and
`.` of a path) and ASCII lower-casing (the form the colour helper writes its
digits in).
`Wrappers` holds the `Option` type that stands for a JavaScript `undefined`.

Behaviour of the code that the model keeps as written:

- The store has no `select` operation in `src/atoms/capsAtoms.ts`, so none is
  modelled; the scenario lemma moves the selection by a record update.
- `removeCapAtom` has no guard against removing the last cap, and the model
  adds none.
- The selected view returns `undefined` (here `None`) for a selected id that
  names no cap; there is no fallback to another cap.
- The name rule accepts exactly 64 characters (`max(64)`), although its
  message reads "less than 64 characters"; the model follows the rule.

## Model

| member | source | states |
|---|---|---|
| CapsAtoms.InitialState | src/atoms/capsAtoms.ts:58-78 | the seed holds exactly the keys "1" and "2", each cap stored under its own id, named Developer and Marketer, with "1" selected and present |
| CapsAtoms.AddCap | src/atoms/capsAtoms.ts:87-93 | the new cap is stored under its id (replacing any cap with that id) and becomes the selection; the key set gains that id only; every other entry is unchanged |
| CapsAtoms.RemoveCap | src/atoms/capsAtoms.ts:95-103 | the key is gone, every remaining entry is unchanged, the map shrinks by exactly one when the key was present and is unchanged otherwise, and the selection is never changed |
| CapsAtoms.UpdateCap | src/atoms/capsAtoms.ts:105-111 | the cap is stored under its id, every other entry is unchanged, and the selection is kept |
| CapsAtoms.WithPlaylist | src/atoms/capsAtoms.ts:118-123 | the playlist default: the result's playlist is never empty, is "lofi" when the cap's was empty, the cap is returned as is when its playlist was set, and no other field changes |
| CapsAtoms.GetSelectedCap | src/atoms/capsAtoms.ts:113-126 | None exactly when the selected id names no cap; otherwise the stored cap with its playlist set to "lofi" when it was empty, kept as is when it was set, and all other fields equal |
| CapsAtoms.GetAllCaps | src/atoms/capsAtoms.ts:128-141 | one element per key of the enumeration, each the stored cap with its playlist defaulted |
| CapsAtoms.KeyOrderLength | src/atoms/capsAtoms.ts:132 | a duplicate-free enumeration of the keys is as long as the key set |
| CapsAtoms.AllCapsCorrespond | src/atoms/capsAtoms.ts:128-141 | the all-caps view has exactly one element per stored cap; every stored cap appears (playlist defaulted) and every element has a non-empty playlist and comes from a stored cap |
| CapsAtoms.StoredCapsAreListed | src/atoms/capsAtoms.ts:128-141 | every stored cap appears in the all-caps view, playlist defaulted, at the position of its key |
| CapsAtoms.ListedCapsAreStored | src/atoms/capsAtoms.ts:128-141 | every element of the all-caps view has a non-empty playlist and is a stored cap with its playlist defaulted |
| CapsAtoms.WritesKeepKeys | src/atoms/capsAtoms.ts:87-111 | add, update and remove keep every cap stored under its own id |
| CapsAtoms.UpdateIsIdempotent | src/atoms/capsAtoms.ts:105-111 | updating twice with the same cap is updating once |
| CapsAtoms.AddThenGetSelected | src/atoms/capsAtoms.ts:87-126 | after an add the selected view returns the added cap (playlist defaulted) |
| CapsAtoms.RemoveSelectedDangles | src/atoms/capsAtoms.ts:95-126 | removing the selected cap keeps its id as the selection, and the selected view then returns None |
| CapsAtoms.UpdateElsewhereKeepsSelection | src/atoms/capsAtoms.ts:105-126 | updating a cap other than the selected one leaves the selected view unchanged |
| CapsAtoms.AddThenGetAll | src/atoms/capsAtoms.ts:87-141 | after an add the all-caps view contains the added cap (playlist defaulted) |
| CapsAtoms.SeedAllCaps | src/atoms/capsAtoms.ts:58-141 | the all-caps view of the seed has two caps, with ids "1" and "2", in any enumeration order |
| CapsAtoms.SeedAddRemoveScenario | src/atoms/capsAtoms.ts:58-126 | from the seed, adding cap "3" (QA) makes the selected view return it; removing "3" restores the seed's caps and leaves the selection dangling (None) until it is moved to "1", which then shows Developer |
| JsString.ToLowerAscii | src/components/BaseballCap.tsx:211-213 | ASCII lower-casing of one character: a capital becomes the matching lower-case letter, no capital is left, every other character is kept; the form the colour helper writes its digits in |
| JsString.ToLowerAsciiString | src/components/BaseballCap.tsx:211-223 | lower-casing a text keeps its length and lower-cases each character in place |
| JsString.ToUpperAscii | src/components/AddCapForm.tsx:56 | ASCII `toUpperCase` on one character: lower-case letters become the matching capital, every other character is kept |
| JsString.IndexOf | src/components/BaseballCap.tsx:208 | the first position of the character (the search inside `replace("#", "")`), -1 exactly when it does not occur |
| JsString.LastIndexOf | src/components/BackgroundMusic.tsx:53-54 | the last position of the character (where the last `/` and `.` of a path are), -1 exactly when it does not occur |
| JsString.RemoveFirstSpec | src/components/BaseballCap.tsx:208 | `replace("#", "")` removes exactly one character, the first `#`, when there is one, and changes nothing otherwise |
| JsString.RemoveFirst | src/components/BaseballCap.tsx:208 | `replace("#", "")` with a string pattern; what it removes is stated by RemoveFirstSpec and RemoveFirstAtStart |
| JsString.RemoveFirstAtStart | src/components/BaseballCap.tsx:208 | a leading `#` is the one removed |
| JsString.TakeOut | src/components/BaseballCap.tsx:208 | taking one character out of a text leaves one character fewer, removes exactly that character from its multiset, and putting it back at the same place restores the text |
| JsString.ReplaceAll | src/components/BackgroundMusic.tsx:58 | `replace(/-/g, " ")` keeps the length, turns every `-` into a space, keeps every other character and leaves no `-` |
| JsString.Split | src/components/BackgroundMusic.tsx:53 | `split` on one character yields at least one piece and no piece contains the separator |
| JsString.Join | src/components/BackgroundMusic.tsx:61 | `join` on one character; JoinCons unfolds it and SplitJoin proves it undoes Split |
| JsString.Last | src/components/BackgroundMusic.tsx:53 | `pop()` on the pieces of a split: the last piece, which always exists, so the `|| ""` fallback never applies |
| JsString.JoinCons | src/components/BackgroundMusic.tsx:61 | `join` puts the separator between a first piece and the join of at least one more |
| JsString.SplitAtFirst | src/components/BackgroundMusic.tsx:53 | `split` at a text holding the separator gives the text before its first occurrence, then the pieces of what follows it |
| JsString.SplitJoin | src/components/BackgroundMusic.tsx:53-61 | joining the pieces of a split with the same separator gives the text back |
| JsString.PadStart | src/components/BaseballCap.tsx:221-223 | `padStart(n, "0")` reaches length n (or keeps a longer text), ends with the text and fills the front with the pad character |
| JsString.HexDigitValue | src/components/BaseballCap.tsx:211-213 | `parseInt(_, 16)` reads a hex digit of either case alike, as a value below 16, and a digit is lower-case exactly when lower-casing keeps it |
| JsString.LowerHexDigit | src/components/BaseballCap.tsx:221-223 | `toString(16)` writes a value below 16 as a lower-case hex digit that reads back as that value |
| JsString.DigitRoundTrip | src/components/BaseballCap.tsx:211-223 | a digit read and written again comes back lower-cased |
| JsString.ParseHexPair | src/components/BaseballCap.tsx:211-213 | `parseInt` of two hex digits is sixteen times the first plus the second, below 256 |
| JsString.ParseHex | src/components/BaseballCap.tsx:211-213 | `parseInt(_, 16)` on hex digits, most significant first; ParseHexPair and ToHexStringSpec state its value |
| JsString.ToHexString | src/components/BaseballCap.tsx:221-223 | `toString(16)` by repeated division; ToHexStringSpec proves it lower-case, without leading zero and read back by ParseHex |
| JsString.ToHexStringSpec | src/components/BaseballCap.tsx:221-223 | `toString(16)` writes at least one lower-case hex digit, no leading zero, one digit exactly below 16, and `parseInt(_, 16)` reads it back as the number |
| JsString.JsRem | src/components/BackgroundMusic.tsx:124 | JavaScript's `%` for a positive divisor: within (-n, n), with the sign of the dividend, equal to the mathematical remainder on a non-negative dividend and to the negated remainder of the magnitude on a negative one |
| BaseballCap.CalculateComplementaryColor | src/components/BaseballCap.tsx:206-224 | the helper: remove the first `#`, complement the three channels, write them back; ComplementSpec, ComplementIsInvolution, SixDigitInputs and OnlySixDigitsMatter state what it computes |
| BaseballCap.StripHash | src/components/BaseballCap.tsx:208 | `hexColor.replace("#", "")`: the first `#` removed, as RemoveFirstSpec states |
| BaseballCap.Channel | src/components/BaseballCap.tsx:211-213 | each channel read from two hex digits is below 256 |
| BaseballCap.ChannelToHexDigits | src/components/BaseballCap.tsx:221-223 | a channel is written as exactly two digits, the high digit x/16 and the low digit x%16 |
| BaseballCap.ChannelToHexParses | src/components/BaseballCap.tsx:221-223 | a written channel is two lower-case hex digits that read back as the channel |
| BaseballCap.ChannelToHex | src/components/BaseballCap.tsx:221-223 | `x.toString(16).padStart(2, "0")`; ChannelToHexDigits and ChannelToHexParses state its two digits and that they read back as x |
| BaseballCap.SplitByte | src/components/BaseballCap.tsx:211-223 | a channel made of a high and a low hex digit divides back into the two digits |
| BaseballCap.LowerOfPair | src/components/BaseballCap.tsx:221-223 | lower-casing two digits lower-cases each of them |
| BaseballCap.ColourLayout | src/components/BaseballCap.tsx:221-223 | the template's three two-character pieces sit at positions 1-3, 3-5 and 5-7 after the `#` |
| BaseballCap.EncodeColourSpec | src/components/BaseballCap.tsx:221-223 | the template yields `#` and six lower-case hex digits whose three pairs read back as the three channels |
| BaseballCap.EncodeColour | src/components/BaseballCap.tsx:221-223 | the template literal; ColourLayout and EncodeColourSpec state its format and that its pairs read back as the channels |
| BaseballCap.ComplementOfHex | src/components/BaseballCap.tsx:211-223 | the channels after `#` removal, each 255 minus the input channel, written back; ComplementSpec states the result and SameComplement that only the channels matter |
| BaseballCap.ComplementSpec | src/components/BaseballCap.tsx:206-224 | for an input with six hex digits after its first `#` (or without one) the output is `#` and six lower-case hex digits, and each output channel is 255 minus the input channel at positions 0-2, 2-4, 4-6 |
| BaseballCap.ChannelRoundTrip | src/components/BaseballCap.tsx:211-223 | reading two hex digits and writing the value back gives the digits lower-cased |
| BaseballCap.ChannelDigits | src/components/BaseballCap.tsx:211-223 | writing channel k back gives the k-th pair of input digits lower-cased |
| BaseballCap.LowerPairs | src/components/BaseballCap.tsx:221-223 | lower-casing six digits is lower-casing their three pairs |
| BaseballCap.EncodeChannels | src/components/BaseballCap.tsx:211-223 | reading the three channels and writing them back gives `#` and the six input digits lower-cased |
| BaseballCap.OutputIsInput | src/components/BaseballCap.tsx:208-213 | every output colour is a valid input whose channels are its three digit pairs |
| BaseballCap.ComplementIsInvolution | src/components/BaseballCap.tsx:206-224 | complementing twice gives `#` and the input's six digits lower-cased |
| BaseballCap.NormalisedComplementIsInvolution | src/components/BaseballCap.tsx:206-224 | on colours already in the output format, complementing twice is the identity |
| BaseballCap.LowerDigitsStayLower | src/components/BaseballCap.tsx:206-224 | six lower-case hex digits are unchanged by lower-casing |
| BaseballCap.SixDigitInputs | src/components/BaseballCap.tsx:208 | six hex digits with or without a leading `#` are both accepted and give the same complement |
| BaseballCap.OnlySixDigitsMatter | src/components/BaseballCap.tsx:211-213 | inputs that agree on the first six characters after the first `#` have the same complement: anything after them is ignored |
| BaseballCap.SameChannel | src/components/BaseballCap.tsx:211-213 | texts that agree on their first six digits read the same channel k |
| BaseballCap.SameComplement | src/components/BaseballCap.tsx:206-224 | texts with the same three channels have the same complement |
| BaseballCap.WhiteChannels | src/components/BaseballCap.tsx:211-213 | `#ffffff` is in the output format and each of its channels is 255 |
| BaseballCap.EncodeBlack | src/components/BaseballCap.tsx:221-223 | three zero channels are written `#000000` |
| BaseballCap.WhiteToBlack | src/components/BaseballCap.tsx:206-224 | the complement of `#ffffff` is `#000000` |
| BaseballCap.BlackToWhite | src/components/BaseballCap.tsx:206-224 | the complement of `#000000` is `#ffffff` |
| MiniBaseballCap.CalculateComplementaryColor | src/components/MiniBaseballCap.tsx:271-285 | the small viewer's copy of the helper; SameAsMainViewer proves it equal to the main viewer's, and ComplementSpec and ComplementIsInvolution restate its properties |
| MiniBaseballCap.SameAsMainViewer | src/components/MiniBaseballCap.tsx:271-285 | the small viewer's copy computes the same function as the main viewer's helper |
| MiniBaseballCap.ComplementSpec | src/components/MiniBaseballCap.tsx:271-285 | the copy yields `#` and six lower-case hex digits, each channel 255 minus the input channel |
| MiniBaseballCap.ComplementIsInvolution | src/components/MiniBaseballCap.tsx:271-285 | the copy applied twice gives `#` and the input's six digits lower-cased |
| MiniBaseballCap.SetCapColor | src/components/MiniBaseballCap.tsx:268-301 | without a loaded cap nothing changes; otherwise the cap meshes take the colour, the name text takes it when it exists, and the background clear colour is never touched |
| MiniBaseballCap.UpdateNameTextColor | src/components/MiniBaseballCap.tsx:259-266 | the name text takes the colour when it exists; nothing else changes |
| BackgroundMusic.Swap | src/components/BackgroundMusic.tsx:20 | the destructuring swap keeps the length; SwapPermutes states the exchange and the kept multiset |
| BackgroundMusic.SwapPermutes | src/components/BackgroundMusic.tsx:20 | the destructuring swap exchanges the two positions, keeps every other one and keeps the multiset of songs |
| BackgroundMusic.StepsValidPrefix | src/components/BackgroundMusic.tsx:18-19 | a prefix of a valid run of random choices is valid |
| BackgroundMusic.Shuffled | src/components/BackgroundMusic.tsx:18-21 | the loop's effect for given random choices; it keeps the length |
| BackgroundMusic.ShuffledPermutes | src/components/BackgroundMusic.tsx:18-21 | whatever indices the random source yields, the result is a permutation of the input |
| BackgroundMusic.ShortInputsTakeNoStep | src/components/BackgroundMusic.tsx:18 | an input of length 0 or 1 takes no step and comes back unchanged; any run takes at most length-1 steps |
| BackgroundMusic.ShuffleArray | src/components/BackgroundMusic.tsx:16-23 | the result is a fresh array, the argument is unchanged, each step i picks 0 <= j <= i, the result is the loop's effect for those choices and a permutation of the input, and inputs of length 0 or 1 come back unchanged |
| BackgroundMusic.NextIndex | src/components/BackgroundMusic.tsx:124 | the next index lies in [0, n) and is i + 1, wrapping from n - 1 to 0 |
| BackgroundMusic.PrevIndex | src/components/BackgroundMusic.tsx:169-170 | the previous index lies in [0, n) and is i - 1, wrapping from 0 to n - 1 |
| BackgroundMusic.PrevNextInverse | src/components/BackgroundMusic.tsx:124-170 | previous undoes next and next undoes previous on every valid index |
| BackgroundMusic.StepForward | src/components/BackgroundMusic.tsx:124 | any number of next steps stays within the playlist |
| BackgroundMusic.StepForwardFromStart | src/components/BackgroundMusic.tsx:124 | k next steps from the first song reach song k, for k < n |
| BackgroundMusic.FullCycle | src/components/BackgroundMusic.tsx:124 | n next steps from the first song come back to it |
| BackgroundMusic.MusicPlayer.constructor | src/components/BackgroundMusic.tsx:34-39 | the player starts with no playlist, index 0 and no change under way |
| BackgroundMusic.MusicPlayer.InitPlaylist | src/components/BackgroundMusic.tsx:42-48 | the mount effect sets the playlist to a permutation of the three bundled songs and changes nothing else |
| BackgroundMusic.MusicPlayer.PlayNextSong | src/components/BackgroundMusic.tsx:117-134 | with an empty playlist or a change under way nothing changes; otherwise the flag is raised and the index moves to the next one; the index stays within the playlist |
| BackgroundMusic.MusicPlayer.PlayPreviousSong | src/components/BackgroundMusic.tsx:162-182 | the same guard; otherwise the flag is raised and the index moves to the previous one |
| BackgroundMusic.MusicPlayer.FinishSongChange | src/components/BackgroundMusic.tsx:137-158 | the delayed callback lowers the flag on every path and changes nothing else |
| BackgroundMusic.FileName | src/components/BackgroundMusic.tsx:53 | the last `/`-separated piece contains no `/` |
| BackgroundMusic.LastIndexOfUnique | src/components/BackgroundMusic.tsx:53-54 | a position holding the character with none after it is the last index |
| BackgroundMusic.FileNameAfterLastSlash | src/components/BackgroundMusic.tsx:53 | the file name is the text after the last `/`, the whole path when there is none |
| BackgroundMusic.FileNameWithoutSlash | src/components/BackgroundMusic.tsx:53 | a path without `/` is its own file name and has no last `/` |
| BackgroundMusic.TextAfterLastSlash | src/components/BackgroundMusic.tsx:53 | the text after the last `/` of a path is the text after the last `/` of what follows any one of its `/` |
| BackgroundMusic.NoSlashInRest | src/components/BackgroundMusic.tsx:53 | a `/` with none after it is the last one, so the text after the last `/` is everything after it |
| BackgroundMusic.SlashInRest | src/components/BackgroundMusic.tsx:53 | when a `/` follows position i, the last `/` of the rest is the last `/` of the path |
| BackgroundMusic.FileNameOfTail | src/components/BackgroundMusic.tsx:53 | the last piece of the split is the last piece of the split of what follows the first `/` |
| BackgroundMusic.NotInTail | src/components/BackgroundMusic.tsx:54 | a character is absent from a tail exactly when no position of the tail holds it |
| BackgroundMusic.DropExtensionAtMatch | src/components/BackgroundMusic.tsx:54 | where `/\.[^/.]+$/` matches, the name is cut at the match |
| BackgroundMusic.DropExtensionNoMatch | src/components/BackgroundMusic.tsx:54 | where the pattern matches nowhere, the name is kept whole |
| BackgroundMusic.DropExtension | src/components/BackgroundMusic.tsx:54 | `replace(/\.[^/.]+$/, "")`; DropExtensionAtMatch and DropExtensionNoMatch state both outcomes |
| BackgroundMusic.SongStem | src/components/BackgroundMusic.tsx:53-54 | the file name without its extension contains no `/` |
| BackgroundMusic.CapitaliseWord | src/components/BackgroundMusic.tsx:60 | capitalising a word keeps its length |
| BackgroundMusic.CapitaliseWords | src/components/BackgroundMusic.tsx:60 | the map capitalises each word and keeps their number |
| BackgroundMusic.CapitaliseEachWord | src/components/BackgroundMusic.tsx:59-61 | split on spaces, capitalise each word, join with spaces; CapitaliseEachWordIsTitleCase proves it equal to the reference title case |
| BackgroundMusic.TitleCase | src/components/BackgroundMusic.tsx:57-61 | reference title case, character by character; it keeps the length |
| BackgroundMusic.TitleCaseOneWord | src/components/BackgroundMusic.tsx:60 | on a text without spaces title case capitalises the first character only |
| BackgroundMusic.TitleCaseAtSpace | src/components/BackgroundMusic.tsx:59-61 | title case splits at the first space into the capitalised first word, the space and the title case of the rest |
| BackgroundMusic.CapitaliseOneWord | src/components/BackgroundMusic.tsx:59-61 | a text without spaces is one word, capitalised as a whole |
| BackgroundMusic.CapitaliseEachWordAtSpace | src/components/BackgroundMusic.tsx:59-61 | split, capitalise and join gives the capitalised first word, a space, and the same for the rest |
| BackgroundMusic.CapitaliseEachWordIsTitleCase | src/components/BackgroundMusic.tsx:59-61 | split on spaces, capitalise each word and join is exactly the reference title case |
| BackgroundMusic.UpperKeepsPunctuation | src/components/BackgroundMusic.tsx:60 | upper-casing neither makes nor removes a `-` or a `/` |
| BackgroundMusic.GetSongTitle | src/components/BackgroundMusic.tsx:51-62 | `getSongTitle`; GetSongTitleSpec states what it returns |
| BackgroundMusic.GetSongTitleSpec | src/components/BackgroundMusic.tsx:51-62 | a title is the title case of the stem with dashes made spaces, as long as the stem, with no `-` and no `/` |
| AddCapForm.Fails | src/components/AddCapForm.tsx:7-16 | the schema rule behind each issue: name shorter than 1 or longer than 64, letter not of length 1, colour, letter colour or playlist empty |
| AddCapForm.Valid | src/components/AddCapForm.tsx:7-16 | the five field rules together, the reference Validate is proved against |
| AddCapForm.Message | src/components/AddCapForm.tsx:10-15 | every issue has a non-empty message, the schema's own text |
| AddCapForm.FieldOf | src/components/AddCapForm.tsx:7-16 | every issue is reported under one of the five fields |
| AddCapForm.AllIssuesListed | src/components/AddCapForm.tsx:7-16 | the list of rules contains every issue |
| AddCapForm.FailedRules | src/components/AddCapForm.tsx:7-16 | an issue is reported exactly when it is listed and its rule fails, and a duplicate-free list gives duplicate-free issues |
| AddCapForm.Validate | src/components/AddCapForm.tsx:7-16 | an issue is reported exactly when its rule fails, each at most once, and there is no issue exactly when all five field rules hold |
| AddCapForm.AtMostOneNameIssue | src/components/AddCapForm.tsx:8-11 | a name never breaks both of its rules |
| AddCapForm.OneIssuePerField | src/components/AddCapForm.tsx:83-125 | no two issues found are reported under the same field, so each field's `errors.<field>.message` slot shows at most one message and the shown messages are one per issue |
| AddCapForm.NameBoundary | src/components/AddCapForm.tsx:8-11 | a 64-character name passes, a 65-character name is rejected with the "less than 64" message, and an empty name with "Cap name is required" |
| AddCapForm.IssueMessages | src/components/AddCapForm.tsx:7-16 | one message per issue, in the issues' order |
| AddCapForm.MessagesOfIssues | src/components/AddCapForm.tsx:7-16 | the message of every issue found is shown |
| AddCapForm.ShownMessagesAreIssues | src/components/AddCapForm.tsx:7-16 | a message is shown exactly when it is the message of an issue found, in both directions |
| AddCapForm.InitialData | src/components/AddCapForm.tsx:32-38 | the default colour, letter colour and playlist are non-empty |
| AddCapForm.InitialDataIssues | src/components/AddCapForm.tsx:32-38 | the default values fail on the name and the letter only |
| AddCapForm.HandleSubmit | src/components/AddCapForm.tsx:65-74 | data is submitted exactly when it is valid, unchanged, and the form is reset to its defaults; otherwise the issues shown are exactly the failed rules |
| AddCapForm.SubmittedData | src/components/AddCapForm.tsx:65-74 | `onSubmit` receives the values exactly when they are valid, and only valid data |
| AddCapForm.DefaultFormIsBlocked | src/components/AddCapForm.tsx:32-68 | submitting the default form is blocked, and after a submit the reset form would be blocked again |
| AddCapForm.NormaliseLetter | src/components/AddCapForm.tsx:53-61 | the empty letter is kept; any other becomes one character, the first one upper-cased |
| AddCapForm.NormaliseIsIdempotent | src/components/AddCapForm.tsx:53-61 | normalising twice is normalising once, so the effect settles after one write |
| AddCapForm.NormalisedLetterIsValid | src/components/AddCapForm.tsx:53-61 | a normalised non-empty letter passes the letter rule, and a lower-case letter becomes its capital |

## Left out

- The volume atom (`src/atoms/capsAtoms.ts:19-56`): floating-point checks and clamping, and local-storage I/O.
- Persistence of the cap store in local storage and its JSON encoding: the store is an in-memory value.
- CapsAtoms.GetAllCaps: the order `Object.values` enumerates keys in is a parameter (any duplicate-free enumeration of the keys), not JavaScript's integer-keys-first order.
- CapsAtoms.GetSelectedCap: ids are plain map keys. A selected id that is not a stored cap but names an inherited `Object.prototype` member (`"constructor"`, `"toString"`) makes `caps[selectedCapId]` find that member, so the source returns `{playlist: "lofi"}` where the model returns None.
- A missing `playlist` in stored data is modelled as the empty string; both are falsy and are treated alike by the views.
- `parseInt` on non-hex or short input (NaN or a partial value): the complement helpers require six hex digits after the first `#`.
- BaseballCap.CalculateComplementaryColor: does not model what happens on input shorter than six hex digits, which the precondition excludes.
- Text outside the Basic Multilingual Plane: a model `char` is a Unicode scalar value, so lengths (the name's 1 to 64, the letter's exactly 1, `charAt(0)`) count scalars where JavaScript counts UTF-16 code units; a single emoji letter fails `length(1)` in the application but would pass the model's rule.
- Case mapping covers ASCII letters only; Unicode mappings such as "ß" to "SS" are not modelled.
- All Three.js scene, model, font and text-mesh code, including the main viewer's use of the complement for `scene.background`, and the name-text opacity.
- MiniBaseballCap.SetCapColor: models only which colours change; the material objects, roughness and metalness and the letter-mesh exclusion are not modelled.
- Picture-in-picture and visibility handling.
- The audio element, `setTimeout`, promises, document listeners and `console` output in the music player; the delayed callback is the separate method FinishSongChange.
- BackgroundMusic.ShuffleArray: `Math.random` is an arbitrary choice of index in range; its distribution (uniform shuffles) is not modelled.
- BackgroundMusic.MusicPlayer.PlayNextSong: React state updates are applied at once; the asynchronous re-render and the callbacks' captured (possibly stale) values are not modelled.
- JsString.JsRem: covers positive divisors only, the only ones the player uses.
- zod and react-hook-form internals: only the schema's rules, the order of its issues, the resolver's gate and the reset after a submit are modelled.
- Bootstrapping, markup and configuration files (`src/main.tsx`, `src/main.js`, the modal and button components, `vite.config.js`) and the older `src/components/BaseballCap.js` are not part of this model.
