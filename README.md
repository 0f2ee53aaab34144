# Dictionary bot core, modelled in Dafny

`telegram_dictionary_bot.py` is a Telegram bot that keeps a small glossary.
The glossary is a JSON file mapping a lower-cased word to its meaning and a
list of example sentences. Administrators grow it through a three-step dialogue:
`/add`, then the word, the meaning and the examples. They can also `/delete`
words, `/list` them and ask for `/stats`. Anyone can send a comma-separated
list of words and get back the entries that exist and the words that do not.

This project models that core in three modules:

- `Text` (Text.dfy) covers the string handling the bot relies on. That is Python's
  `str.strip` with its whitespace set, `str.lower` on ASCII, and `str.split` and
  `str.join` on one character. On top of these it builds the example parsing of
  `receive_examples` and the query tokenising of `search_words`. It also gives the
  code-point order that `sorted` applies to strings.
- `Glossary` (Glossary.dfy) holds the stored data and the pure computations over it:
  - the `Entry` record;
  - the sorted word list and its 50-word parts;
  - the statistics counts and the guarded average;
  - the split of query words into found and missing.
- `Bot` (Bot.dfy) holds the handlers. The class `DictionaryBot` has these fields:
  - `persisted`, the content of `dictionary.json`; every handler reads it and every
    mutating handler overwrites it whole;
  - the dialogue `state` (`WORD`, `MEANING`, `EXAMPLE` or `END`);
  - the session fields `new_word` and `meaning`.

  Each handler is a method that states its reply and the new state in full. `Valid()`
  holds that no session field outlives the dialogue and that every state has the
  fields it reads. `HandleText`, `HandleCallback` and `HandleCommand` route a message,
  a button press or a command the way the `ConversationHandler` and the handler list
  registered in `main` do. `AddNewWord`, `UpdateExistingWord` and `DeclineUpdate` run
  whole dialogues and state what they leave in the store.

`is_admin` (telegram_dictionary_bot.py:68-70) is the predicate
`Bot.DictionaryBot.IsAdmin`, which tests membership in the fixed set `admins`.
`load_dictionary` (54-59) is `Bot.DictionaryBot.Load`; a missing file reads as the
empty map, which is simply the initial `persisted`.

Where the code and the bot's own description differ, the model follows the code:

- Search looks each word up exactly, after strip and lower (line 358). It does not
  find partial matches, although the welcome text at line 101 says it does.
- Query words are neither de-duplicated nor filtered (line 343). An empty piece,
  such as the one after a trailing comma, is looked up as the empty word. It is
  reported missing unless the empty word itself is stored, which the add dialogue
  allows: a blank word strips to the empty word at line 125.
- A word that contains a comma can be added (line 125) but is never found by a
  search, which splits the query at every comma (line 343); see
  `Text.CommaWordUnsearchable`. A stored key without a comma is found by typing it
  (`Text.StoredKeyFound`).
- A meaning that is empty after stripping is accepted (line 156).

## Model

| member | source | states |
|---|---|---|
| Text.IsSpace | telegram_dictionary_bot.py:125 | the code points `str.isspace()` accepts, which `strip()` removes from both ends |
| Text.LowerChar | telegram_dictionary_bot.py:125 | one character of `lower()`: an upper-case ASCII letter becomes its lower-case letter, 32 code points on, and any other character is kept |
| Text.ToLower | telegram_dictionary_bot.py:125 | `lower()` keeps the length and leaves no upper-case ASCII letter |
| Text.ToLowerChars | telegram_dictionary_bot.py:125 | `lower()` works character by character: each output character is `LowerChar` of the input character at the same place |
| Text.TrimStart | telegram_dictionary_bot.py:125 | `lstrip()`: drops whitespace from the front, one character at a time (its contract is `TrimStartSuffix`) |
| Text.TrimEnd | telegram_dictionary_bot.py:125 | `rstrip()`: drops whitespace from the back, one character at a time (its contract is `TrimEndPrefix`) |
| Text.TrimStartSuffix | telegram_dictionary_bot.py:125 | leading strip removes a prefix of whitespace only, and what remains does not start with whitespace |
| Text.TrimEndPrefix | telegram_dictionary_bot.py:125 | trailing strip removes a suffix of whitespace only, and what remains does not end with whitespace |
| Text.Strip | telegram_dictionary_bot.py:156 | `strip()` never lengthens a string, and its result neither starts nor ends with whitespace |
| Text.StripSlice | telegram_dictionary_bot.py:156 | `strip()` returns a contiguous slice of its input, and everything cut off on either side is whitespace |
| Text.StripChars | telegram_dictionary_bot.py:156 | every character of the stripped text occurs in the input |
| Text.StripEmpty | telegram_dictionary_bot.py:174 | a line strips to empty exactly when it is all whitespace (this is what `if ex.strip()` filters out) |
| Text.StripKeeps | telegram_dictionary_bot.py:156 | a string without whitespace at either end is left as it is |
| Text.StripIdempotent | telegram_dictionary_bot.py:156 | stripping twice is stripping once |
| Text.Normalize | telegram_dictionary_bot.py:125 | a word after `strip().lower()` is no longer than the input, has no outer whitespace and no upper-case letter |
| Text.NormalizeKeeps | telegram_dictionary_bot.py:125 | an already normalised word is its own normal form |
| Text.NormalizeIdempotent | telegram_dictionary_bot.py:343 | normalising a word twice gives the key normalising it once gives |
| Text.TrimStartSpaces | telegram_dictionary_bot.py:125 | leading whitespace in front of a text is all removed by `lstrip()`, which then acts as on the text alone |
| Text.TrimEndSpaces | telegram_dictionary_bot.py:125 | trailing whitespace after a text is all removed by `rstrip()`, which then acts as on the text alone |
| Text.StripAround | telegram_dictionary_bot.py:156 | a stripped text with whitespace added on both sides strips back to itself |
| Text.StripParts | telegram_dictionary_bot.py:156 | every text is whitespace, then its stripped form, then whitespace |
| Text.StripIgnoresSpace | telegram_dictionary_bot.py:156 | whitespace added on either side of a text does not change what it strips to |
| Text.NormalizeAround | telegram_dictionary_bot.py:125 | the word typed with extra whitespace around it is stored and looked up under the same key (also line 343) |
| Text.LowerSpace | telegram_dictionary_bot.py:125 | two characters that lower-case alike are both whitespace or both not |
| Text.StripSamePlaces | telegram_dictionary_bot.py:156 | two texts with whitespace at the same places strip to the slices between the same two positions |
| Text.LowerSlices | telegram_dictionary_bot.py:125 | texts that lower-case alike place by place give the same lower-cased slice anywhere |
| Text.NormalizeCaseBlind | telegram_dictionary_bot.py:125 | words that differ only in ASCII letter case have the same key, so searches are case-insensitive as line 100 promises (also line 343) |
| Text.Join | telegram_dictionary_bot.py:253 | `sep.join(parts)`: the pieces with one separator between neighbours (its partners are `JoinSplit` and `SplitJoin`) |
| Text.Split | telegram_dictionary_bot.py:343 | `split(sep)` yields at least one piece and no piece holds the separator |
| Text.JoinSplit | telegram_dictionary_bot.py:174 | joining the pieces of a split with the separator gives the original text back |
| Text.SplitJoin | telegram_dictionary_bot.py:343 | splitting a join of separator-free pieces gives exactly those pieces back |
| Text.SplitAfterPiece | telegram_dictionary_bot.py:343 | a separator-free prefix only extends the first piece of the split |
| Text.SplitBeforePiece | telegram_dictionary_bot.py:343 | a separator-free suffix only extends the last piece of the split |
| Text.CleanLines | telegram_dictionary_bot.py:174 | the kept examples are no more than the lines, and each is non-empty with no outer whitespace |
| Text.CleanLinesSingle | telegram_dictionary_bot.py:174 | one line gives its stripped form, or nothing when it is blank |
| Text.CleanLinesAppend | telegram_dictionary_bot.py:174 | the filter works line by line: the examples of two blocks of lines are those of each block, in order |
| Text.CleanLinesOneLine | telegram_dictionary_bot.py:174 | no kept example spans two lines |
| Text.CleanLinesKeeps | telegram_dictionary_bot.py:174 | lines that are already clean all survive unchanged |
| Text.CleanLinesNonEmpty | telegram_dictionary_bot.py:174 | one non-whitespace character anywhere keeps at least one example |
| Text.ParseExamples | telegram_dictionary_bot.py:173-174 | every parsed example is non-empty, carries no outer whitespace and holds no newline |
| Text.ParseExamplesRoundTrip | telegram_dictionary_bot.py:173-174 | sending clean examples one per line gives back exactly those examples, in order |
| Text.ParseExamplesEmpty | telegram_dictionary_bot.py:173-174 | the example list is empty exactly when the message is all whitespace |
| Text.Tokens | telegram_dictionary_bot.py:340-343 | a query yields at least one word, and every word is normalised |
| Text.SingleWordQuery | telegram_dictionary_bot.py:340-343 | a query without a comma is the single word it normalises to |
| Text.StoredKeyFound | telegram_dictionary_bot.py:340-343 | a normalised word without a comma, sent as a query, asks for exactly that word, so such a stored key is found by typing it |
| Text.NormalizeNoComma | telegram_dictionary_bot.py:343 | normalising comma-free text never produces a comma |
| Text.CommaWordUnsearchable | telegram_dictionary_bot.py:340-343 | no query word contains a comma, so a word with a comma, which `receive_word` accepts at line 125, is never found by a search |
| Text.JoinStripped | telegram_dictionary_bot.py:340-343 | joining strip-clean words with a non-space separator leaves no outer whitespace |
| Text.SpaceNoComma | telegram_dictionary_bot.py:343 | whitespace holds no comma |
| Text.SplitAround | telegram_dictionary_bot.py:340-343 | text without separators on either side of a string only extends the first and last pieces of its split |
| Text.TokensOfText | telegram_dictionary_bot.py:340-343 | the query words are the comma-separated pieces of the raw text, each stripped and lower-cased: stripping the whole query first changes none of them |
| Text.TokensOfPieces | telegram_dictionary_bot.py:340-343 | comma-free pieces joined with commas are read back as exactly those pieces, each normalised, in order |
| Text.TokensRoundTrip | telegram_dictionary_bot.py:340-343 | a comma-joined list of normalised, comma-free words is read back as exactly that list |
| Text.Below | telegram_dictionary_bot.py:282 | Python's `<` on strings, which `sorted` uses: the first differing code point decides, and a proper prefix comes first |
| Text.BelowIrreflexive | telegram_dictionary_bot.py:282 | no string sorts before itself |
| Text.BelowTransitive | telegram_dictionary_bot.py:282 | the string order is transitive |
| Text.BelowTotal | telegram_dictionary_bot.py:282 | any two different strings are ordered one way or the other |
| Text.BelowAsymmetric | telegram_dictionary_bot.py:282 | two strings are never each before the other |
| Glossary.LeastExists | telegram_dictionary_bot.py:282 | every non-empty set of words has a first word |
| Glossary.Least | telegram_dictionary_bot.py:282 | the chosen word is in the set and before every other word of it |
| Glossary.SortedWords | telegram_dictionary_bot.py:282 | `sorted(dictionary.keys())` holds every key exactly once, in strictly increasing order |
| Glossary.StrictlySortedUnique | telegram_dictionary_bot.py:282 | two strictly sorted lists with the same words are equal, so the listing is determined by the keys |
| Glossary.Chunks | telegram_dictionary_bot.py:289 | the 50-word parts concatenate back to the list, none is empty or longer than 50, and all but the last are full |
| Glossary.TotalExamples | telegram_dictionary_bot.py:309 | the sum over all entries of their example counts, taken in word order (its contracts are `TotalExamplesRemove` and `TotalExamplesUpsert`) |
| Glossary.TotalExamplesRemove | telegram_dictionary_bot.py:309 | the total example count is one entry's examples plus the total of the other entries |
| Glossary.TotalExamplesUpsert | telegram_dictionary_bot.py:179-184 | storing an entry changes the total by its examples minus those of the entry it replaces |
| Glossary.Average | telegram_dictionary_bot.py:310 | the average is 0 with no words, and otherwise times the word count gives the example count |
| Glossary.Hits | telegram_dictionary_bot.py:354-369 | `results`: the query words the dictionary holds, each with its entry, in query order (its contracts are the `Classify` lemmas) |
| Glossary.Misses | telegram_dictionary_bot.py:354-369 | `not_found`: the query words the dictionary lacks, in query order |
| Glossary.ClassifySound | telegram_dictionary_bot.py:354-369 | every found word is a key, reported with its stored entry, and every missing word is not a key |
| Glossary.ClassifyStep | telegram_dictionary_bot.py:357-369 | one more query word appends to exactly one of the two lists |
| Glossary.ClassifySingle | telegram_dictionary_bot.py:357-369 | a one-word query is found with its entry, or reported missing |
| Glossary.ClassifyFound | telegram_dictionary_bot.py:358-361 | a present last word is counted among the found words and adds nothing to the missing ones |
| Glossary.ClassifyMissing | telegram_dictionary_bot.py:367-369 | an absent last word is counted among the missing words and adds nothing to the found ones |
| Glossary.ClassifyPartition | telegram_dictionary_bot.py:354-369 | found and missing words together are exactly the query words, with repeats: each word lands in exactly one list |
| Bot.ButtonsDiffer | telegram_dictionary_bot.py:226 | data starting with `update_` is never the cancel button's data |
| Bot.ButtonWord | telegram_dictionary_bot.py:226-227 | the word an update button names is what follows the `update_` prefix |
| Bot.UpdateData | telegram_dictionary_bot.py:132 | the "Yes, Update" data for a word is an update button, not the cancel one, and hands that same word back |
| Bot.RemoveAll | telegram_dictionary_bot.py:227 | `str.replace(pattern, "")`: every non-overlapping occurrence removed, scanning left to right |
| Bot.ButtonWordAsWritten | telegram_dictionary_bot.py:227 | the word `button_callback` takes from the data as written, with every `update_` removed |
| Bot.ButtonWordAsWrittenLosesWord | telegram_dictionary_bot.py:227 | as written, the button offered for the stored word `update_update_x` carries `update_update_update_x` and names `x`, while the prefix-stripping reading names the stored word (see Findings) |
| Bot.ListParts | telegram_dictionary_bot.py:289 | the parts of the `/list` reply concatenate to the sorted word list; each holds 1 to 50 words and all but the last hold 50 |
| Bot.ListAnswer | telegram_dictionary_bot.py:276-286 | the `/list` answer: administrators only, the empty-dictionary reply, otherwise the sorted key list |
| Bot.StatsAnswer | telegram_dictionary_bot.py:302-319 | the `/stats` answer: administrators only, the word count, the total example count and the zero-guarded average |
| Bot.DeleteOutcome | telegram_dictionary_bot.py:241-267 | the `/delete` outcome: administrators only, the usage reply without arguments, otherwise removal and one save for a present word, no change and no save for an absent one |
| Bot.DictionaryBot.IsAdmin | telegram_dictionary_bot.py:68-70 | `is_admin`: membership in the configured administrator set |
| Bot.DictionaryBot.Load | telegram_dictionary_bot.py:54-59 | `load_dictionary`: the persisted map as it stands |
| Bot.DictionaryBot.constructor | telegram_dictionary_bot.py:54-59 | the conversation of one user starts outside any dialogue with no session fields and no offered buttons, holding the stored map, whose keys are normalised words |
| Bot.DictionaryBot.Save | telegram_dictionary_bot.py:62-65 | saving overwrites the whole persisted map with the given one |
| Bot.DictionaryBot.AddWordStart | telegram_dictionary_bot.py:108-120 | `/add` from the conversation's user moves to `WORD` when that user is an administrator; otherwise it ends at once and sets no session field |
| Bot.DictionaryBot.ReceiveWord | telegram_dictionary_bot.py:123-151 | the stripped, lower-cased word becomes `new_word`; a stored word stays in `WORD` with a confirmation naming its current meaning, a new word moves to `MEANING`; the store is not written; a stored word is recorded as offered for update, since its "Yes, Update" button is now shown |
| Bot.DictionaryBot.ButtonCallback | telegram_dictionary_bot.py:221-236 | an update button for an offered word sets `new_word` to the word after the prefix and moves to `MEANING`; the cancel button cancels; any other data changes nothing |
| Bot.DictionaryBot.ReceiveMeaning | telegram_dictionary_bot.py:154-168 | the stripped meaning is kept, `new_word` is unchanged and the dialogue moves to `EXAMPLE` |
| Bot.DictionaryBot.ReceiveExamples | telegram_dictionary_bot.py:171-201 | the kept word's entry becomes exactly the kept meaning and the parsed examples, every other key and entry is unchanged, the map is saved once, the session is cleared and the dialogue ends |
| Bot.DictionaryBot.CancelAdd | telegram_dictionary_bot.py:204-218 | cancel clears both session fields and ends the dialogue; it cannot touch the store |
| Bot.DictionaryBot.DeleteWord | telegram_dictionary_bot.py:239-267 | for an administrator with arguments, the space-joined, lower-cased word is removed and the map saved if present, and otherwise nothing is saved; non-administrators and a missing argument change nothing |
| Bot.DictionaryBot.ListWords | telegram_dictionary_bot.py:270-286 | an administrator gets every stored word exactly once in sorted order, or the empty-dictionary reply |
| Bot.DictionaryBot.Stats | telegram_dictionary_bot.py:300-319 | an administrator gets the word count, the total example count and the average, which is 0 for an empty dictionary |
| Bot.DictionaryBot.SearchWords | telegram_dictionary_bot.py:338-369 | an empty dictionary short-circuits; otherwise the loop yields the found words with their entries and the missing words, each in query order |
| Bot.DictionaryBot.HandleText | telegram_dictionary_bot.py:427-450 | text goes to the current state's handler, and the contract gives that handler's outcome: in `WORD` the normalised word is kept and the state follows from whether it is stored; in `MEANING` the stripped meaning; in `EXAMPLE` the whole new map, one save and `END`; outside a dialogue the search's exact found and missing lists or the empty-dictionary reply. Only the `EXAMPLE` step writes the store |
| Bot.DictionaryBot.HandleCallback | telegram_dictionary_bot.py:427-441 | in `WORD` an update button for an offered word moves to `MEANING` with the word after the prefix; the cancel button ends any open dialogue; any other press changes nothing; the store is never written |
| Bot.DictionaryBot.HandleCommand | telegram_dictionary_bot.py:427-450 | a command from the conversation's user: `/add` opens a dialogue for administrators only when none is open, `/cancel` ends an open one, and `/delete`, `/list` and `/stats` give their handlers' outcomes (`DeleteOutcome`, `ListAnswer`, `StatsAnswer`) and leave the dialogue as it is; only `/delete` can write the store |
| Bot.DictionaryBot.AddNewWord | telegram_dictionary_bot.py:108-201 | `/add`, a new word, its meaning and its examples, all sent through the routing, store exactly that entry, and a comma-free query that normalises to the word then finds it |
| Bot.DictionaryBot.UpdateExistingWord | telegram_dictionary_bot.py:123-236 | through the routing: re-adding a stored word and pressing "Yes, Update" replaces its entry wholesale and changes no other entry; this holds with the corrected button handler only (see Findings) |
| Bot.DictionaryBot.DeclineUpdate | telegram_dictionary_bot.py:204-236 | through the routing: re-adding a stored word and pressing "No, Cancel" leaves the store and the file untouched and ends the dialogue |

## Left out

- Telegram transport is left out: `Update`/`ContextTypes` objects, `reply_text`, inline keyboards and `Application` start-up. Replies are the datatype `Reply`, without their Markdown text.
- Message rendering and the 4000-character reply splitting are rendering concerns and are not modelled (lines 283-297, 370-389). `Glossary.Chunks` captures only the 50-word parts; `ListWords` returns the whole sorted list and does not choose between one message and parts.
- JSON encoding and file I/O are replaced by the map field `persisted`. This covers `json.load`/`json.dump`, the existence check and `/backup` sending the file.
- `/start` and `/backup` are left out. They only send text or the file.
- The health-check HTTP server and its thread are I/O and concurrency and are left out.
- The model follows one conversation: that of `user` in one chat. Every message, button press and command it routes comes from that user. Other users' conversations are separate and are not modelled. In the library a conversation is keyed by chat and user, while `user_data` (lines 126, 157) is keyed by user alone; the same user in two chats shares session fields, which the model does not capture.
- Handler calls are sequential. The lost update between concurrent load-modify-save handlers is not modelled.
- Reading `BOT_TOKEN` and `ADMIN_IDS` from the environment, logging and `error_handler` are left out. The administrator set is a constructor parameter.
- Text.LowerChar: lower-cases ASCII letters only; Python's `str.lower` also maps other Unicode letters. `Text.Normalize` and every lemma about it inherit this.
- Glossary.Average: the average is a mathematical real. Floating-point division and the `.1f` rounding of the reply (lines 310, 316) are not modelled.
- Bot.DictionaryBot.ButtonCallback: the model takes the prefix-stripping word that was evidently intended, not the `replace` call as written (see Findings). The as-written function is `Bot.ButtonWordAsWritten`.
- Bot.DictionaryBot.UpdateExistingWord: holds only with the corrected button handler. As written (line 227), a stored word that contains `update_` is updated under another key: `update_update_x` becomes `x`, `preupdate_x` becomes `prex`.
- Every reply is assumed to be delivered. In `receive_examples` the file is saved (line 184) and the session cleared (line 187) before the Markdown reply (line 192). If Telegram rejects that text, the handler raises, the dialogue stays in `EXAMPLE`, and the next message fails at line 176 for want of `new_word`. Likewise the "No, Cancel" button answers its callback query twice, at line 224 and again at line 209; if Telegram refuses the second answer, `cancel_add` raises after clearing the session at line 206, and the dialogue stays open without its session fields. The model does not capture either.
- Bot.DictionaryBot.HandleCallback: an `update_` press must name a word whose button this conversation showed (line 132 builds the only such data); forged callback data is not modelled. With that, `Valid()` keeps every stored key, the kept word and every offered word normalised.
- Bot.DictionaryBot.constructor: requires the stored keys to be normalised, as every key the bot writes is; a hand-edited `dictionary.json` with other keys is not modelled.
- Bot.DictionaryBot.HandleCallback: a button in a state where no handler matches is answered with `NoReply`; the library's answering of the callback query is not modelled.

## Findings

| source | as written | input that shows it | evidently intended | confidence | as-written member | corrected member |
|---|---|---|---|---|---|---|
| telegram_dictionary_bot.py:227 | `query.data.replace("update_", "")` removes every occurrence of `update_`, not only the prefix that line 132 put there | add the word `update_update_x`, then `/add` it again and press "Yes, Update": the data `update_update_update_x` yields the word `x`, so the new meaning and examples are stored under `x` | take the text after the leading `update_` so that the button names the word it was offered for | high, not executed | Bot.ButtonWordAsWrittenLosesWord | Bot.ButtonWord |
