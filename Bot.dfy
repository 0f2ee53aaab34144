/** The bot's handlers over the stored glossary and one administrator's
    add/update dialogue. The dialogue's states and the routing of messages,
    button presses and commands follow the `ConversationHandler` and the
    handler list that `main` registers. */
module Bot {
  import opened Text
  import opened Glossary

  datatype Option<T> = None | Some(value: T)

  /** The states of the add/update dialogue (`WORD`, `MEANING`, `EXAMPLE`);
      `End` is `ConversationHandler.END`: no dialogue is open. */
  datatype State = Word | Meaning | Example | End

  /** What a handler sends back, without its Markdown rendering. */
  datatype Reply =
    | AdminOnly                                   // "only available to admins"
    | AskWord                                     // dialogue opened
    | ConfirmUpdate(word: string, current: string, updateData: string)
                                                  // word exists: "Yes, Update" / "No, Cancel" buttons
    | AskMeaning(word: string)                    // new word accepted
    | AskNewMeaning(word: string)                 // update confirmed
    | AskExamples
    | Added(word: string, entry: Entry)
    | Cancelled
    | DeleteUsage                                 // `/delete` without a word
    | Deleted(word: string)
    | NotFound(word: string)
    | EmptyDictionary
    | WordList(words: seq<string>)
    | Statistics(wordCount: nat, exampleCount: nat, average: real)
    | SearchResults(found: seq<(string, Entry)>, missing: seq<string>)
    | NoReply                                     // the update is not handled

  /** The commands the model routes; `/start` and `/backup` are not part of it. */
  datatype Command = Add | Cancel | Delete(args: seq<string>) | List | Stats | Other

  /** The number of words per message when the word list is sent in parts. */
  const ListPart: nat := 50

  /** Callback data of the "Yes, Update" button, before the word. */
  const UpdatePrefix: string := "update_"

  /** Callback data of the "No, Cancel" button. */
  const CancelData: string := "cancel_add"

  predicate StartsWith(s: string, prefix: string)
  {
    |prefix| <= |s| && s[..|prefix|] == prefix
  }

  /** The two buttons cannot be mistaken for each other. */
  lemma ButtonsDiffer(data: string)
    requires StartsWith(data, UpdatePrefix)
    ensures data != CancelData
  {
    assert data[0] == UpdatePrefix[0];
  }

  /** The word an `update_` button names: what follows the prefix. */
  function ButtonWord(data: string): (word: string)
    requires StartsWith(data, UpdatePrefix)
    ensures UpdatePrefix + word == data
  {
    data[|UpdatePrefix|..]
  }

  /** The callback data of the "Yes, Update" button offered for `word`; the
      button hands exactly that word back. */
  function UpdateData(word: string): (data: string)
    ensures StartsWith(data, UpdatePrefix) && data != CancelData
    ensures ButtonWord(data) == word
  {
    var data := UpdatePrefix + word;
    assert data[..|UpdatePrefix|] == UpdatePrefix;
    assert data[|UpdatePrefix|..] == word;
    ButtonsDiffer(data);
    data
  }

  /** `s.replace(pattern, "")`: every non-overlapping occurrence removed, left to right. */
  function RemoveAll(s: string, pattern: string): string
    requires pattern != []
    decreases |s|
  {
    if |s| < |pattern| then s
    else if s[..|pattern|] == pattern then RemoveAll(s[|pattern|..], pattern)
    else [s[0]] + RemoveAll(s[1..], pattern)
  }

  /** The word `button_callback` takes from the data as written:
      `query.data.replace("update_", "")`. */
  function ButtonWordAsWritten(data: string): string
  {
    RemoveAll(data, UpdatePrefix)
  }

  /** As written, the button offered for the stored word "update_update_x"
      names "x", so confirming the update edits another entry. */
  lemma ButtonWordAsWrittenLosesWord()
    ensures UpdateData("update_update_x") == "update_update_update_x"
    ensures ButtonWordAsWritten(UpdateData("update_update_x")) == "x"
    ensures ButtonWord(UpdateData("update_update_x")) == "update_update_x"
  {
    var data := UpdateData("update_update_x");
    assert data == "update_update_update_x";
    assert data[..7] == "update_";
    assert data[7..] == "update_update_x";
    assert data[7..][..7] == "update_";
    assert data[7..][7..] == "update_x";
    assert data[7..][7..][..7] == "update_";
    assert data[7..][7..][7..] == "x";
    assert RemoveAll("x", UpdatePrefix) == "x";
  }

  /** The parts `/list` sends when the whole list is too long for one
      message: the sorted words, `ListPart` at a time. */
  function ListParts(d: Dictionary): (parts: seq<seq<string>>)
    ensures Flatten(parts) == SortedWords(d.Keys)
    ensures forall i :: 0 <= i < |parts| ==> 0 < |parts[i]| <= ListPart
    ensures forall i :: 0 <= i < |parts| - 1 ==> |parts[i]| == ListPart
  {
    Chunks(SortedWords(d.Keys), ListPart)
  }

  /** The answer to `/list` over the dictionary `d`: administrators only; an
      empty dictionary says so; otherwise every word once, in Python's string order. */
  ghost predicate ListAnswer(admin: bool, d: Dictionary, reply: Reply)
  {
    && (!admin ==> reply == AdminOnly)
    && (admin && d == map[] ==> reply == EmptyDictionary)
    && (admin && d != map[] ==> reply == WordList(SortedWords(d.Keys)))
  }

  /** The answer to `/stats` over the dictionary `d`: word count, example
      count and their ratio, which is 0 for an empty dictionary instead of a
      division by zero. */
  ghost predicate StatsAnswer(admin: bool, d: Dictionary, reply: Reply)
  {
    && (!admin ==> reply == AdminOnly)
    && (admin ==>
          && reply.Statistics?
          && reply.wordCount == |d|
          && reply.exampleCount == TotalExamples(d)
          && (reply.wordCount == 0 ==> reply.exampleCount == 0 && reply.average == 0.0)
          && (reply.wordCount > 0 ==> reply.average * reply.wordCount as real == reply.exampleCount as real))
  }

  /** What `/delete` with `args` does to the store `before`, leaving `after`
      and writing the file `writes` times: the arguments joined by spaces and
      lower-cased name the word; a present word is removed and the file
      written once, an absent one leaves the store and the file alone. */
  ghost predicate DeleteOutcome(admin: bool, args: seq<string>, before: Dictionary, after: Dictionary, writes: int, reply: Reply)
  {
    && (!admin ==> reply == AdminOnly)
    && (admin && args == [] ==> reply == DeleteUsage)
    && (!admin || args == [] ==> after == before && writes == 0)
    && (admin && args != [] ==>
          var word := ToLower(Join(args, ' '));
          if word in before then
            && after == before - {word}
            && writes == 1
            && reply == Deleted(word)
          else
            after == before && writes == 0 && reply == NotFound(word))
  }

  class DictionaryBot {
    /** `ADMIN_IDS`, fixed for the lifetime of the process. */
    const admins: set<int>
    /** The user whose conversation, in one chat, this object follows: every
        message, button and command routed here comes from that user. */
    const user: int
    /** The content of `dictionary.json`; a missing file reads as the empty map. */
    var persisted: Dictionary
    /** How many times the file has been written. */
    ghost var saves: nat
    /** The dialogue's current state. */
    var state: State
    /** `context.user_data['new_word']`. */
    var newWord: Option<string>
    /** `context.user_data['meaning']`. */
    var meaning: Option<string>
    /** The words whose "Yes, Update" button this conversation has shown; every
        `update_` press names one of them. */
    ghost var offered: set<string>

    /** The session fields a state relies on are present, and none outlives the
        dialogue; every stored key, the kept word and every word offered for
        update are in normal form. */
    ghost predicate Valid()
      reads this
    {
      && (forall w :: w in persisted ==> Normalized(w))
      && (newWord.Some? ==> Normalized(newWord.value))
      && (forall w :: w in offered ==> Normalized(w))
      && (state == End ==> newWord == None && meaning == None)
      && (state == Word ==> meaning == None)
      && (state == Meaning ==> newWord.Some? && meaning == None)
      && (state == Example ==> newWord.Some? && meaning.Some?)
    }

    /** The file holds only what the dialogue wrote, so its keys are normalised. */
    constructor (admins: set<int>, user: int, stored: Dictionary)
      requires forall w :: w in stored ==> Normalized(w)
      ensures Valid()
      ensures this.admins == admins && this.user == user && persisted == stored && saves == 0
      ensures state == End && newWord == None && meaning == None && offered == {}
    {
      this.admins := admins;
      this.user := user;
      persisted := stored;
      saves := 0;
      state := End;
      newWord := None;
      meaning := None;
      offered := {};
    }

    /** `is_admin`: membership in the configured set. */
    predicate IsAdmin(userId: int)
    {
      userId in admins
    }

    /** `load_dictionary`. */
    function Load(): Dictionary
      reads this
    {
      persisted
    }

    /** `save_dictionary`: the file is overwritten with the whole map. */
    method Save(d: Dictionary)
      modifies this`persisted, this`saves
      ensures persisted == d && saves == old(saves) + 1
    {
      persisted := d;
      saves := saves + 1;
    }

    /** `/add` from the conversation's user outside a dialogue (`add_word_start`). */
    method AddWordStart() returns (reply: Reply)
      requires Valid() && state == End
      modifies this`state
      ensures Valid()
      ensures IsAdmin(user) ==> state == Word && reply == AskWord
      ensures !IsAdmin(user) ==> state == End && reply == AdminOnly
    {
      if !IsAdmin(user) {
        reply := AdminOnly;
        state := End;
        return;
      }
      reply := AskWord;
      state := Word;
    }

    /** A text message in state `Word` (`receive_word`): the normalised word is
        kept; an existing word holds the dialogue in `Word` and offers the two
        buttons, a new one moves on to `Meaning`. The store is only read. */
    method ReceiveWord(text: string) returns (reply: Reply)
      requires Valid() && state == Word
      modifies this`state, this`newWord, this`offered
      ensures Valid()
      ensures newWord == Some(Normalize(text))
      ensures offered == if Normalize(text) in persisted then old(offered) + {Normalize(text)} else old(offered)
      ensures Normalize(text) in persisted ==>
        && state == Word
        && reply == ConfirmUpdate(Normalize(text), persisted[Normalize(text)].meaning, UpdateData(Normalize(text)))
      ensures Normalize(text) !in persisted ==> state == Meaning && reply == AskMeaning(Normalize(text))
    {
      var word := Normalize(text);
      newWord := Some(word);
      var d := Load();
      if word in d {
        reply := ConfirmUpdate(word, d[word].meaning, UpdateData(word));
        offered := offered + {word};
        state := Word;
        return;
      }
      reply := AskMeaning(word);
      state := Meaning;
    }

    /** `/cancel`, or the "No, Cancel" button (`cancel_add`): the session is
        cleared and the dialogue ends; the store is not touched. */
    method CancelAdd() returns (reply: Reply)
      requires Valid()
      modifies this`state, this`newWord, this`meaning
      ensures Valid()
      ensures state == End && newWord == None && meaning == None && reply == Cancelled
    {
      newWord := None;
      meaning := None;
      reply := Cancelled;
      state := End;
    }

    /** A button press (`button_callback`): in state `Word` any button, in the
        other open states only "No, Cancel" (the fallback's pattern). Data that
        is neither button leaves everything as it was (the handler returns `None`). */
    method ButtonCallback(data: string) returns (reply: Reply)
      requires Valid() && (state == Word || (state != End && data == CancelData))
      requires StartsWith(data, UpdatePrefix) ==> ButtonWord(data) in offered
      modifies this`state, this`newWord, this`meaning
      ensures Valid()
      ensures StartsWith(data, UpdatePrefix) ==>
        && state == Meaning && newWord == Some(ButtonWord(data)) && meaning == None
        && reply == AskNewMeaning(ButtonWord(data))
      ensures data == CancelData ==> state == End && newWord == None && meaning == None && reply == Cancelled
      ensures !StartsWith(data, UpdatePrefix) && data != CancelData ==>
        state == old(state) && newWord == old(newWord) && meaning == old(meaning) && reply == NoReply
    {
      if data == CancelData {
        assert !StartsWith(data, UpdatePrefix) by {
          if StartsWith(data, UpdatePrefix) {
            ButtonsDiffer(data);
          }
        }
      }
      if StartsWith(data, UpdatePrefix) {
        var word := ButtonWord(data);
        newWord := Some(word);
        reply := AskNewMeaning(word);
        state := Meaning;
      } else if data == CancelData {
        reply := CancelAdd();
      } else {
        reply := NoReply;
      }
    }

    /** A text message in state `Meaning` (`receive_meaning`). */
    method ReceiveMeaning(text: string) returns (reply: Reply)
      requires Valid() && state == Meaning
      modifies this`state, this`meaning
      ensures Valid()
      ensures state == Example && meaning == Some(Strip(text)) && newWord == old(newWord)
      ensures reply == AskExamples
    {
      meaning := Some(Strip(text));
      reply := AskExamples;
      state := Example;
    }

    /** A text message in state `Example` (`receive_examples`): the entry for
        the kept word becomes exactly the kept meaning and the parsed examples,
        replacing any earlier one; every other word keeps its entry; the file
        is written; the session is cleared and the dialogue ends. */
    method ReceiveExamples(text: string) returns (reply: Reply)
      requires Valid() && state == Example
      modifies this`state, this`newWord, this`meaning, this`persisted, this`saves
      ensures Valid()
      ensures persisted == old(persisted)[old(newWord).value := Entry(old(meaning).value, ParseExamples(text))]
      ensures persisted[old(newWord).value] == Entry(old(meaning).value, ParseExamples(text))
      ensures forall w :: w != old(newWord).value ==> (w in persisted <==> w in old(persisted))
      ensures forall w :: w != old(newWord).value && w in persisted ==> persisted[w] == old(persisted)[w]
      ensures reply == Added(old(newWord).value, Entry(old(meaning).value, ParseExamples(text)))
      ensures saves == old(saves) + 1
      ensures state == End && newWord == None && meaning == None
    {
      var examples := ParseExamples(text);
      var word := newWord.value;
      var entry := Entry(meaning.value, examples);
      var d := Load();
      d := d[word := entry];
      Save(d);
      newWord := None;
      meaning := None;
      reply := Added(word, entry);
      state := End;
    }

    /** `/delete` (`delete_word`). */
    method DeleteWord(userId: int, args: seq<string>) returns (reply: Reply)
      modifies this`persisted, this`saves
      ensures DeleteOutcome(IsAdmin(userId), args, old(persisted), persisted, saves - old(saves), reply)
    {
      if !IsAdmin(userId) {
        return AdminOnly;
      }
      if args == [] {
        return DeleteUsage;
      }
      var word := ToLower(Join(args, ' '));
      var d := Load();
      if word in d {
        d := d - {word};
        Save(d);
        reply := Deleted(word);
      } else {
        reply := NotFound(word);
      }
    }

    /** `/list` (`list_words`), without the rendering of the list. */
    method ListWords(userId: int) returns (reply: Reply)
      ensures ListAnswer(IsAdmin(userId), persisted, reply)
    {
      if !IsAdmin(userId) {
        return AdminOnly;
      }
      var d := Load();
      if d == map[] {
        return EmptyDictionary;
      }
      reply := WordList(SortedWords(d.Keys));
    }

    /** `/stats` (`stats`). */
    method Stats(userId: int) returns (reply: Reply)
      ensures StatsAnswer(IsAdmin(userId), persisted, reply)
    {
      if !IsAdmin(userId) {
        return AdminOnly;
      }
      var d := Load();
      var total := TotalExamples(d);
      reply := Statistics(|d|, total, Average(total, |d|));
    }

    /** A text message outside a dialogue (`search_words`): an empty dictionary
        answers at once; otherwise each query word is looked up exactly, found
        words with their entries and missing words each keep query order. */
    method SearchWords(text: string) returns (reply: Reply)
      ensures persisted == map[] ==> reply == EmptyDictionary
      ensures persisted != map[] ==>
        reply == SearchResults(Hits(persisted, Tokens(text)), Misses(persisted, Tokens(text)))
    {
      var words := Tokens(text);
      var d := Load();
      if d == map[] {
        return EmptyDictionary;
      }
      var results: seq<(string, Entry)> := [];
      var notFound: seq<string> := [];
      for i := 0 to |words|
        invariant results == Hits(d, words[..i])
        invariant notFound == Misses(d, words[..i])
      {
        var word := words[i];
        ClassifyStep(d, words, i);
        if word in d {
          results := results + [(word, d[word])];
        } else {
          notFound := notFound + [word];
        }
      }
      assert words[..|words|] == words;
      reply := SearchResults(results, notFound);
    }

    /** A text message that is not a command: inside a dialogue it goes to the
        handler of the current state, outside one to the search. Only the
        last step of a dialogue writes the store. */
    method HandleText(text: string) returns (reply: Reply)
      requires Valid()
      modifies this`state, this`newWord, this`meaning, this`persisted, this`saves, this`offered
      ensures Valid()
      ensures offered ==
        if old(state) == Word && Normalize(text) in persisted then old(offered) + {Normalize(text)} else old(offered)
      ensures old(state) != Example ==> persisted == old(persisted) && saves == old(saves)
      ensures old(state) == End ==>
        && state == End && newWord == None && meaning == None
        && (persisted == map[] ==> reply == EmptyDictionary)
        && (persisted != map[] ==>
              reply == SearchResults(Hits(persisted, Tokens(text)), Misses(persisted, Tokens(text))))
      ensures old(state) == Word ==>
        var word := Normalize(text);
        && newWord == Some(word) && meaning == None
        && (word in persisted ==>
              state == Word && reply == ConfirmUpdate(word, persisted[word].meaning, UpdateData(word)))
        && (word !in persisted ==> state == Meaning && reply == AskMeaning(word))
      ensures old(state) == Meaning ==>
        && state == Example && newWord == old(newWord) && meaning == Some(Strip(text))
        && reply == AskExamples
      ensures old(state) == Example ==>
        var entry := Entry(old(meaning).value, ParseExamples(text));
        && persisted == old(persisted)[old(newWord).value := entry]
        && saves == old(saves) + 1
        && state == End && newWord == None && meaning == None
        && reply == Added(old(newWord).value, entry)
    {
      match state
      case Word => reply := ReceiveWord(text);
      case Meaning => reply := ReceiveMeaning(text);
      case Example => reply := ReceiveExamples(text);
      case End => reply := SearchWords(text);
    }

    /** A button press: handled inside a dialogue only (any button in `Word`,
        "No, Cancel" in the other states); it never writes the store. */
    method HandleCallback(data: string) returns (reply: Reply)
      requires Valid()
      requires StartsWith(data, UpdatePrefix) ==> ButtonWord(data) in offered
      modifies this`state, this`newWord, this`meaning
      ensures Valid()
      ensures old(state) == Word && StartsWith(data, UpdatePrefix) ==>
        && state == Meaning && newWord == Some(ButtonWord(data)) && meaning == None
        && reply == AskNewMeaning(ButtonWord(data))
      ensures old(state) != End && data == CancelData ==>
        state == End && newWord == None && meaning == None && reply == Cancelled
      ensures old(state) == End || (data != CancelData && (old(state) != Word || !StartsWith(data, UpdatePrefix))) ==>
        state == old(state) && newWord == old(newWord) && meaning == old(meaning) && reply == NoReply
    {
      if state == Word || (state != End && data == CancelData) {
        reply := ButtonCallback(data);
      } else {
        reply := NoReply;
      }
    }

    /** A command from the conversation's user. `/add` opens a dialogue only
        when none is open and `/cancel`
        acts only inside one; `/delete`, `/list` and `/stats` are answered in
        any state and leave the dialogue as it is. */
    method HandleCommand(command: Command) returns (reply: Reply)
      requires Valid()
      modifies this`state, this`newWord, this`meaning, this`persisted, this`saves
      ensures Valid()
      ensures !command.Delete? ==> persisted == old(persisted) && saves == old(saves)
      ensures command.Delete? || command.List? || command.Stats? || command.Other? ==>
        state == old(state) && newWord == old(newWord) && meaning == old(meaning)
      ensures command.Add? && old(state) != End ==>
        state == old(state) && newWord == old(newWord) && meaning == old(meaning) && reply == NoReply
      ensures command.Add? && old(state) == End ==>
        && newWord == None && meaning == None
        && (IsAdmin(user) ==> state == Word && reply == AskWord)
        && (!IsAdmin(user) ==> state == End && reply == AdminOnly)
      ensures command.Cancel? ==> state == End && newWord == None && meaning == None
      ensures command.Cancel? ==> reply == if old(state) == End then NoReply else Cancelled
      ensures command.Delete? ==>
        DeleteOutcome(IsAdmin(user), command.args, old(persisted), persisted, saves - old(saves), reply)
      ensures command.List? ==> ListAnswer(IsAdmin(user), persisted, reply)
      ensures command.Stats? ==> StatsAnswer(IsAdmin(user), persisted, reply)
      ensures command.Other? ==> reply == NoReply
    {
      match command
      case Add =>
        if state == End {
          reply := AddWordStart();
        } else {
          reply := NoReply;
        }
      case Cancel =>
        if state != End {
          reply := CancelAdd();
        } else {
          reply := NoReply;
        }
      case Delete(args) => reply := DeleteWord(user, args);
      case List => reply := ListWords(user);
      case Stats => reply := Stats(user);
      case Other => reply := NoReply;
    }

    /** `/add`, a new word, its meaning and its examples, then a search: the
        word is stored with exactly that entry and any comma-free query that
        normalises to it finds it. Every message goes through the routing. */
    method AddNewWord(word: string, meaningText: string, examplesText: string, query: string)
      returns (found: Reply)
      requires Valid() && state == End && IsAdmin(user)
      requires Normalize(word) !in persisted
      requires ',' !in query && Normalize(query) == Normalize(word)
      modifies this`state, this`newWord, this`meaning, this`persisted, this`saves, this`offered
      ensures Valid() && state == End
      ensures persisted == old(persisted)[Normalize(word) := Entry(Strip(meaningText), ParseExamples(examplesText))]
      ensures found == SearchResults([(Normalize(word), Entry(Strip(meaningText), ParseExamples(examplesText)))], [])
    {
      ghost var w := Normalize(word);
      ghost var e := Entry(Strip(meaningText), ParseExamples(examplesText));
      var reply := HandleCommand(Add);
      assert state == Word && persisted == old(persisted);
      reply := HandleText(word);
      assert state == Meaning && newWord == Some(w) && persisted == old(persisted);
      reply := HandleText(meaningText);
      assert state == Example && newWord == Some(w) && meaning == Some(Strip(meaningText));
      reply := HandleText(examplesText);
      assert state == End && persisted == old(persisted)[w := e];
      SingleWordQuery(query);
      ClassifySingle(persisted, w);
      found := HandleText(query);
    }

    /** `/add` with a stored word, "Yes, Update", then the new meaning and
        examples: the entry is replaced wholesale. */
    method UpdateExistingWord(word: string, meaningText: string, examplesText: string)
      requires Valid() && state == End && IsAdmin(user)
      requires Normalize(word) in persisted
      modifies this`state, this`newWord, this`meaning, this`persisted, this`saves, this`offered
      ensures Valid() && state == End
      ensures persisted == old(persisted)[Normalize(word) := Entry(Strip(meaningText), ParseExamples(examplesText))]
    {
      var w := Normalize(word);
      var reply := HandleCommand(Add);
      assert state == Word && persisted == old(persisted);
      reply := HandleText(word);
      assert state == Word && newWord == Some(w) && persisted == old(persisted);
      // the data of the "Yes, Update" button that the confirmation offered
      reply := HandleCallback(UpdateData(w));
      assert state == Meaning && newWord == Some(w) && persisted == old(persisted);
      reply := HandleText(meaningText);
      assert state == Example && newWord == Some(w) && meaning == Some(Strip(meaningText)) && persisted == old(persisted);
      reply := HandleText(examplesText);
    }

    /** `/add` with a stored word, then "No, Cancel": the store is as it was. */
    method DeclineUpdate(word: string)
      requires Valid() && state == End && IsAdmin(user)
      requires Normalize(word) in persisted
      modifies this`state, this`newWord, this`meaning, this`persisted, this`saves, this`offered
      ensures Valid() && state == End && newWord == None && meaning == None
      ensures persisted == old(persisted) && saves == old(saves)
    {
      var reply := HandleCommand(Add);
      assert state == Word && persisted == old(persisted) && saves == old(saves);
      reply := HandleText(word);
      assert state == Word && persisted == old(persisted) && saves == old(saves);
      assert !StartsWith(CancelData, UpdatePrefix) by {
        assert CancelData[0] != UpdatePrefix[0];
      }
      reply := HandleCallback(CancelData);
    }
  }
}
