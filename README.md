# Quiz bot: a verified model of the answer normaliser, the corpus loader and the session protocol

The Quiz repository runs a trivia bot for the VK messenger. Questions and answers come from text files. Each user's session is a Redis hash with the fields `question` and `answer`, stored under `user:<id>`. A reply is judged by comparing a canonical form of the reply with a canonical form of the stored answer. To get that form, the bot strips the explanation that follows the first `.` or `(`, lower-cases the text, strips it, and collapses whitespace.

This Dafny project models two source files:

- **`quiz_utils.py`**, split across two files:
  - `text.dfy`, module `Text`, holds the Python `str` operations the code relies on. These are `isspace`, `lower`, `strip`, `split()` and `' '.join`.
  - `quiz_utils.dfy`, module `QuizUtils`, holds the button labels, `strip_explanation`, `normalize_text`, `load_file` and `load_all_questions`.
- **`vk_bot.py`**, split across two files:
  - `redis_hash.dfy`, module `RedisHash`, models the three Redis hash commands the bot uses (HGETALL, HSET with a mapping, HDEL) over an in-memory `map<string, map<string, string>>`. A hash whose last field is deleted disappears.
  - `vk_bot.dfy`, module `VkBot`, holds the storage key and the `QuizBot` class. The class has a mutable `store` field and a ghost `outbox` log of sent messages. Its methods are the three handlers and one turn of the event loop.

Pure code is written as functions and lemmas. The two loaders keep their loops. The handlers are methods with `modifies this`. Each handler's `ensures` is a two-state predicate stating:

- which session fields are set or deleted;
- that no other key of the store moves;
- exactly which messages are appended to the outbox.

Each handler also keeps the store invariant `Consistent`: no empty hash, and every hash has both session fields or neither.

Behaviour worth knowing, as the code has it:

- **Leading delimiter.** When the text starts with `.` or `(`, `ANSWER_RE` does not match, and `strip_explanation` returns the whole text stripped.
- **Empty corpus.** `random.choice` raises on an empty corpus, and that ends the event loop. The model reports this as `ok == false` with no reply. On give-up, the answer has by then already been revealed and the fields deleted.
- **Free text with no active question.** The bot replies with the "request a question first" prompt.
- **The "my score" label.** It has no handler of its own, so pressing it is judged as an answer.

## Model

| member | source | states |
|---|---|---|
| Text.LowerAll | quiz_utils.py:29 | `lower()` keeps the length and lower-cases each character in place |
| Text.LowerIdempotent | quiz_utils.py:29 | lower-casing twice is lower-casing once, and it never turns a space into a non-space or back |
| Text.Trim | quiz_utils.py:23 | `strip()` is no longer than its input and has no whitespace at either end |
| Text.TrimIsInfix | quiz_utils.py:23 | `strip()` yields the infix between the leading and trailing whitespace runs; its ends are not whitespace and every character it drops is whitespace |
| Text.TrimOfTrimmed | quiz_utils.py:23 | stripping a string whose ends are not whitespace gives it back |
| Text.TrimOfPadded | vk_bot.py:97 | stripping removes exactly the whitespace padding around a stripped string |
| Text.Words | quiz_utils.py:38-39 | every token `split()` returns is non-empty and free of whitespace |
| Text.Collapse | quiz_utils.py:29 | `' '.join(s.split())` has no whitespace at either end, no whitespace other than the plain space, and never two spaces in a row |
| Text.CollapseKeepsWords | quiz_utils.py:38-39 | collapsing keeps every word and the order of the words |
| Text.WordsOfTrailingSpace | quiz_utils.py:29 | whitespace appended to a string does not change what `split()` returns |
| Text.WordsOfTrim | quiz_utils.py:29 | `split()` of the stripped text is `split()` of the text |
| Text.WordsOfJoin | quiz_utils.py:29 | `split()` of `' '.join(ws)` gives back `ws` for any list of words |
| Text.JoinOfWords | quiz_utils.py:29 | a string in collapsed form is `' '.join` of its own words |
| Text.CollapseIdempotent | quiz_utils.py:29 | collapsing twice is collapsing once |
| Text.CollapseKeeps | quiz_utils.py:29 | collapsing introduces no character other than the space |
| QuizUtils.Label | quiz_utils.py:13-16 | each button label is non-empty and has no surrounding whitespace, so it survives the dispatcher's `strip()` |
| QuizUtils.LabelsDistinct | quiz_utils.py:13-16 | the three labels are pairwise distinct |
| QuizUtils.FirstDelimiter | quiz_utils.py:10 | the index of the first `.` or `(`: none occurs before it, and the character there is one |
| QuizUtils.StripExplanation | quiz_utils.py:19-23 | empty text gives `''`; the result is stripped; with no leading delimiter it contains neither `.` nor `(`; with a leading delimiter it keeps that first character |
| QuizUtils.StripKeepsLongestPrefix | quiz_utils.py:22-23 | without a leading delimiter the result is the stripped longest prefix free of `.` and `(` |
| QuizUtils.StripKeepsAllAfterLeadingDelimiter | quiz_utils.py:22-23 | with a leading `.` or `(` the result is the whole text stripped |
| QuizUtils.Normalize | quiz_utils.py:26-29 | empty text gives `''`; the result is stripped, uses only the plain space as whitespace, never has two spaces in a row, and is lower case (`NormalizeKeepsWords` states which words it holds) |
| QuizUtils.NormalizeIsJoinOfWords | quiz_utils.py:26-29 | the normal form is `' '.join` of the words of the lower-cased text, empty text included |
| QuizUtils.NormalizeKeepsWords | quiz_utils.py:26-29 | the normal form has exactly the words of the lower-cased text, in order |
| QuizUtils.NormalizeIdempotent | quiz_utils.py:26-29 | normalising twice is normalising once |
| QuizUtils.LowerAllOfLower | quiz_utils.py:29 | lower-casing a lower-case string leaves it unchanged |
| QuizUtils.LowerKeepsDelimiters | quiz_utils.py:29 | lower-casing neither creates nor removes a `.` or `(` |
| QuizUtils.NormalizeAddsNoDelimiter | quiz_utils.py:26-29 | normalising a delimiter-free string keeps it delimiter-free |
| QuizUtils.NormalizeHead | quiz_utils.py:26-29 | a string starting with a non-space normalises to one starting with that character lower-cased |
| QuizUtils.CollapseHead | quiz_utils.py:29 | collapsing a string that starts with a non-space keeps its first character |
| QuizUtils.StripWithoutDelimiter | quiz_utils.py:19-23 | a stripped, delimiter-free answer is its own stripped form |
| QuizUtils.SameAnswer | vk_bot.py:59-62 | the comparison of the two normalised, explanation-free texts; its meaning is stated by `SameAnswerIff` |
| QuizUtils.SameAnswerIff | vk_bot.py:59-62 | a reply is accepted exactly when, without explanations and lower-cased, it splits into the same words as the stored answer |
| QuizUtils.CanonicalReplyAccepted | vk_bot.py:59-62 | replying with the canonical form of the stored answer is judged correct |
| QuizUtils.CollapsePair | quiz_utils.py:37-40 | both fields of a loaded pair are in collapsed form |
| QuizUtils.CollapsePairKeepsWords | quiz_utils.py:38-39 | a loaded pair keeps every word of the captured question and answer, in order |
| QuizUtils.LoadFile | quiz_utils.py:32-42 | one pair per regex match, in match order, each the whitespace-collapsed match |
| QuizUtils.LoadedPairs | quiz_utils.py:35-42 | what the `load_file` loop builds is exactly the file's share of the corpus |
| QuizUtils.CorpusAppend | quiz_utils.py:46-52 | the corpus of two consecutive runs of files is the concatenation of their corpora |
| QuizUtils.CorpusSnoc | quiz_utils.py:48-49 | scanning one more file appends exactly that file's pairs |
| QuizUtils.CorpusPrefixStep | quiz_utils.py:47-49 | one more step of the loop over the sorted paths extends the corpus by that file's pairs |
| QuizUtils.CorpusSkipsUndecodable | quiz_utils.py:48-51 | a file that fails to decode contributes nothing and does not stop the scan, wherever it sits |
| QuizUtils.NameLeTotal | quiz_utils.py:47 | any two file names are comparable |
| QuizUtils.NameLeTransitive | quiz_utils.py:47 | the name order is transitive |
| QuizUtils.NameLeAntisymmetric | quiz_utils.py:47 | names ordered both ways are equal |
| QuizUtils.NameLeReflexive | quiz_utils.py:47 | every name is ordered before or equal to itself |
| QuizUtils.Insert | quiz_utils.py:47 | insertion adds exactly one file to the listing |
| QuizUtils.InsertKeepsSorted | quiz_utils.py:47 | insertion into a sorted listing keeps it sorted |
| QuizUtils.SortByName | quiz_utils.py:47 | `sorted` returns a permutation of the listing in name order |
| QuizUtils.SortedHeadsAgree | quiz_utils.py:47 | two sorted permutations of distinctly named files start with the same file |
| QuizUtils.TailsPermute | quiz_utils.py:47 | dropping the same first file from two permutations leaves permutations |
| QuizUtils.SortedIsUnique | quiz_utils.py:47 | distinctly named files have exactly one sorted order |
| QuizUtils.ListingOrderIrrelevant | quiz_utils.py:45-52 | the corpus does not depend on the order in which `glob` lists the files |
| QuizUtils.LoadAllQuestions | quiz_utils.py:45-52 | the result is each file's pairs concatenated in sorted name order, with undecodable files skipped |
| RedisHash.HGetAll | vk_bot.py:53 | HGETALL gives the hash stored under the key; in a store without empty hashes it is empty exactly when the key is absent |
| RedisHash.HSet | vk_bot.py:45-48 | HSET upserts the given fields, keeps the hash's other fields, touches no other key and creates no empty hash |
| RedisHash.HDel | vk_bot.py:63 | HDEL removes the named fields, keeps the rest, touches no other key, and drops a hash it empties |
| RedisHash.HSetHash | vk_bot.py:45-48 | bridge for the handler proofs: seen as a whole hash, HSET is a right-biased union |
| RedisHash.HDelHash | vk_bot.py:81 | bridge for the handler proofs: seen as a whole hash, HDEL is a set difference on field names |
| RedisHash.HDelAbsentFields | vk_bot.py:63 | deleting fields that are not there leaves the store as it was |
| RedisHash.HDelUndoesHSet | vk_bot.py:45-48 | deleting freshly written fields restores the store |
| RedisHash.OnlyKeyChangedTrans | vk_bot.py:80-82 | two writes to one key change no other key |
| VkBot.DigitChar | vk_bot.py:40 | a digit below ten is written as the decimal digit character with that value |
| VkBot.Decimal | vk_bot.py:40 | `str` of a natural number is a non-empty run of decimal digits |
| VkBot.DigitsValueOfDecimal | vk_bot.py:40 | reading back the decimal digits of `n` gives `n` |
| VkBot.IntToString | vk_bot.py:40 | `str(n)` is non-empty, starts with `-` exactly when `n` is negative, and its digits read back as the magnitude of `n` |
| VkBot.IntToStringInjective | vk_bot.py:40 | distinct integers have distinct decimal strings |
| VkBot.StorageKey | vk_bot.py:39-40 | the key starts with `user:` |
| VkBot.StorageKeyInjective | vk_bot.py:39-40 | two users never share a session key |
| VkBot.QuestionFields | vk_bot.py:47 | a new-question write sets exactly the fields `question` and `answer` |
| VkBot.OtherUsersUntouched | vk_bot.py:43-82 | a write to one user's key leaves every other user's session as it was |
| VkBot.ActiveAnswer | vk_bot.py:54-55 | `db.get('answer')` is falsy exactly when the field is missing or empty, and is otherwise the stored answer |
| VkBot.AskKeepsConsistent | vk_bot.py:45-48 | storing a drawn pair keeps every session paired |
| VkBot.ClearKeepsConsistent | vk_bot.py:63 | deleting both fields keeps every session paired |
| VkBot.Route | vk_bot.py:94-106 | a new message to the bot reaches a handler exactly when its stripped text is non-blank; the two command labels select their handlers, and any other stripped text is an attempt carrying that text |
| VkBot.PaddedButtonRoutes | vk_bot.py:97-106 | a button label with whitespace padding reaches its handler; the "my score" label is judged as an answer |
| VkBot.QuizBot.Send | vk_bot.py:30-36 | sending appends exactly one message to the outbox |
| VkBot.QuizBot.HandleNewQuestionRequest | vk_bot.py:43-49 | with questions available, the drawn pair is written over the user's two fields, nothing else moves, and the question text is sent; with none, nothing happens and `ok` is false; consistency is kept |
| VkBot.QuizBot.HandleSolutionAttempt | vk_bot.py:52-70 | with no stored answer, the prompt only; with a matching reply, both fields are deleted and congratulations sent; otherwise "wrong" only and the store is unchanged; consistency is kept |
| VkBot.QuizBot.HandleGiveUp | vk_bot.py:73-82 | with no stored answer, the prompt only; otherwise the answer is revealed verbatim, both fields are deleted, and a new pair is stored and its question sent (two messages in all); consistency is kept |
| VkBot.QuizBot.Dispatch | vk_bot.py:93-106 | one turn of the event loop does what `Route` selects: nothing, or exactly the chosen handler's effect |
| VkBot.PlayRound | vk_bot.py:43-82 | ask, answer wrongly, answer rightly, then give up: the session ends without its two fields, no other key moves, and exactly four messages go out in order |
| VkBot.AnswerThenClear | vk_bot.py:45-48 | clearing the two fields right after storing a pair leaves the rest of the hash as before |

## Left out

- Network I/O is not modelled. This covers `vk_api.messages.send`, the keyboard built by `build_keyboard`, `VkLongPoll`, and the Redis client connection. A sent message is an entry in the ghost `outbox`. The store is an in-memory map.
- `random.choice` is the caller's index `pick`. `random.randint` for the message id is not modelled; it is transport detail.
- The file system is not modelled. This covers `Path.glob`, `read_text(encoding="koi8-r")`, and the regular expression `PATTERN`. Each file is an input: `Decoded(matches)` holds the captured groups in match order, and `DecodeError` stands for a file whose decoding raises. A missing directory is an empty listing.
- Text.Lower: models `str.lower()` for four ranges only. U+0041–U+005A and U+0410–U+042F map to the code point 0x20 higher. U+00C0–U+00DE, except U+00D7, also maps 0x20 higher. U+0400–U+040F maps 0x50 higher. Every other character is left unchanged, including capitals Python does lower, such as U+0462, U+0490 and U+04D8 in Cyrillic, Greek capitals, and Latin Extended-A. Case mappings that change length are not covered either.
- `isspace` is Python's exact whitespace set.
- `None` text for `strip_explanation` and `normalize_text` is not modelled. The bot always passes a string.
- The environment, dotenv and logging set-up in `vk_bot.py` is not modelled.
- `tg_bot.py` is not part of this model. It holds no quiz logic.
- Scoring is not modelled. No handler for it exists.
- The event loop itself is not modelled as a loop. `Dispatch` is one turn. A `false` result stands for the exception that ends the loop.
- QuizUtils.ListingOrderIrrelevant: requires distinct file names, which any directory listing has.
- QuizUtils.StripExplanation: with a leading delimiter, it states only that the first character is kept. StripKeepsAllAfterLeadingDelimiter gives the exact result.
