/**
 The word game's rules: one session state, the submission step that checks a
 typed answer (length, originality, spellability, realness, in that order)
 and either records it or raises an error alert, and the new-game reset.
 The spell checker is the oracle `isReal`, and the random pick of a root word
 is an index chosen by the caller.
 */
module Game {
  import opened Wrappers
  import Letters
  import Text

  /** Root word used when the word list offers nothing to pick. */
  const FallbackRoot: string := "silkworm"

  /** What the input field is set to after every submission: one space. */
  const ResetInput: string := " "

  /** Why a submitted answer was turned down, one reason per check. */
  datatype Rejection = TooShort | Duplicate | NotPossible | NotReal

  function Title(reason: Rejection): string
  {
    match reason
    case TooShort => "less than 3 letter"
    case Duplicate => "Word used already"
    case NotPossible => "Word not possible"
    case NotReal => "Word not recognized"
  }

  function Message(reason: Rejection, rootWord: string): string
  {
    match reason
    case TooShort => "try words with more than two letters"
    case Duplicate => "Be more original"
    case NotPossible => "You can't spell that word from '" + rootWord + "'!"
    case NotReal => "You can't just make them up, you know!"
  }

  /** Each check has its own alert title, so the title tells which check failed. */
  lemma TitleIdentifiesCheck(reason: Rejection, other: Rejection)
    ensures Title(reason) == Title(other) <==> reason == other
  {
  }

  /**
   Only the "not possible" message depends on the root word, and it quotes the
   root word whole, so the message tells which root word the answer missed.
   */
  lemma MessageQuotesRoot(reason: Rejection, root: string, otherRoot: string)
    ensures reason != NotPossible ==> Message(reason, root) == Message(reason, otherRoot)
    ensures Message(NotPossible, root) == Message(NotPossible, otherRoot) <==> root == otherRoot
  {
    var prefix := "You can't spell that word from '";
    var m, n := Message(NotPossible, root), Message(NotPossible, otherRoot);
    if m == n {
      assert |root| == |otherRoot|;
      assert m[|prefix|..|prefix| + |root|] == root;
      assert n[|prefix|..|prefix| + |otherRoot|] == otherRoot;
    }
  }

  /**
   Everything the game screen keeps: the root word, the accepted words (most
   recent first), the score, the pending error alert and the input field.
   */
  datatype GameState = GameState(
    rootWord: string,
    usedWords: seq<string>,
    score: int,
    errorTitle: string,
    errorMessage: string,
    showingError: bool,
    newWord: string)

  /** The text field binding: the player types `text`. */
  function Type(st: GameState, text: string): GameState
  {
    st.(newWord := text)
  }

  /** `isOriginal`: a linear scan of the accepted words. */
  function IsOriginal(word: string, usedWords: seq<string>): (ok: bool)
    ensures ok <==> word !in usedWords
  {
    if |usedWords| == 0 then true
    else usedWords[0] != word && IsOriginal(word, usedWords[1..])
  }

  /** `wordError`: raise the alert with the given title and message. */
  function WordError(st: GameState, title: string, message: string): GameState
  {
    st.(errorTitle := title, errorMessage := message, showingError := true)
  }

  /**
   The four checks in the game's order; the first one that fails names the
   rejection, and `None` means the answer passes all of them.
   */
  function Validate(answer: string, st: GameState, isReal: string -> bool): (r: Option<Rejection>)
    ensures r == Some(TooShort) <==> |answer| <= 2
    ensures r == Some(Duplicate) <==> |answer| > 2 && answer in st.usedWords
    ensures r == Some(NotPossible) <==>
      |answer| > 2 && answer !in st.usedWords && !(multiset(answer) <= multiset(st.rootWord))
    ensures r == Some(NotReal) <==>
      |answer| > 2 && answer !in st.usedWords && multiset(answer) <= multiset(st.rootWord)
      && !isReal(answer)
    ensures r == None <==>
      |answer| > 2 && answer !in st.usedWords && multiset(answer) <= multiset(st.rootWord)
      && isReal(answer)
  {
    if !(|answer| > 2) then Some(TooShort)
    else if !IsOriginal(answer, st.usedWords) then Some(Duplicate)
    else if !Letters.IsPossible(answer, st.rootWord) then Some(NotPossible)
    else if !isReal(answer) then Some(NotReal)
    else None
  }

  /**
   `addNewWord`: normalise the typed text, run the checks, and either raise
   the alert of the first failing check or put the answer in front of the
   accepted words and add its length to the score. The input field is reset
   to one space on every path.
   */
  function AddNewWord(st: GameState, isReal: string -> bool): (r: GameState)
    ensures r.newWord == ResetInput
    ensures r.rootWord == st.rootWord
    ensures
      var answer := Text.Normalize(st.newWord);
      match Validate(answer, st, isReal)
      case None =>
        && |r.usedWords| == |st.usedWords| + 1
        && r.usedWords[0] == answer
        && r.usedWords[1..] == st.usedWords
        && r.score == st.score + |answer|
        && r.errorTitle == st.errorTitle
        && r.errorMessage == st.errorMessage
        && r.showingError == st.showingError
      case Some(reason) =>
        && r.usedWords == st.usedWords
        && r.score == st.score
        && r.showingError
        && r.errorTitle == Title(reason)
        && r.errorMessage == Message(reason, st.rootWord)
  {
    var answer := Text.Normalize(st.newWord);
    match Validate(answer, st, isReal)
    case Some(reason) =>
      WordError(st, Title(reason), Message(reason, st.rootWord)).(newWord := ResetInput)
    case None =>
      st.(usedWords := [answer] + st.usedWords, score := st.score + |answer|, newWord := ResetInput)
  }

  /**
   `startGame` once the word list is in hand: the root word becomes the entry
   at the caller-chosen position `choice` (standing for the random pick), or
   the fallback when the list is empty; the accepted words and score are cleared.
   */
  function StartGame(st: GameState, words: seq<string>, choice: nat): (r: GameState)
    requires |words| > 0 ==> choice < |words|
    ensures r.rootWord in words || (|words| == 0 && r.rootWord == FallbackRoot)
    ensures r.usedWords == [] && r.score == 0
    ensures r.newWord == st.newWord && r.showingError == st.showingError
    ensures r.errorTitle == st.errorTitle && r.errorMessage == st.errorMessage
  {
    var root := if |words| > 0 then words[choice] else FallbackRoot;
    st.(rootWord := root, usedWords := [], score := 0)
  }

  /**
   `startGame` from the text of the word-list file: the file is split at line
   breaks, so the list always has at least one entry and the fallback root is
   never taken; the root word is one whole line of the file.
   */
  function StartGameFromFile(st: GameState, contents: string, choice: nat): (r: GameState)
    requires choice < |Text.Split(contents, '\n')|
    ensures r.rootWord in Text.Split(contents, '\n')
    ensures '\n' !in r.rootWord
    ensures r.usedWords == [] && r.score == 0
  {
    StartGame(st, Text.Split(contents, '\n'), choice)
  }

  /** No word appears twice in the list. */
  ghost predicate NoDuplicates(ws: seq<string>)
  {
    forall i, j :: 0 <= i < j < |ws| ==> ws[i] != ws[j]
  }

  /** Sum of the lengths of the words. */
  function TotalLength(ws: seq<string>): nat
  {
    if |ws| == 0 then 0 else |ws[0]| + TotalLength(ws[1..])
  }

  /**
   What a session keeps true between submissions: the accepted words are
   distinct, already normalised, longer than two letters, spellable from the
   root word and real words, and the score is the sum of their lengths.
   */
  ghost predicate Consistent(st: GameState, isReal: string -> bool)
  {
    && NoDuplicates(st.usedWords)
    && st.score == TotalLength(st.usedWords)
    && forall w :: w in st.usedWords ==>
         && |w| > 2
         && Text.Normalize(w) == w
         && multiset(w) <= multiset(st.rootWord)
         && isReal(w)
  }

  /** A new game starts consistent, whatever the previous state was. */
  lemma StartGameEstablishesConsistency(st: GameState, words: seq<string>, choice: nat, isReal: string -> bool)
    requires |words| > 0 ==> choice < |words|
    ensures Consistent(StartGame(st, words, choice), isReal)
  {
  }

  /** A submission, accepted or not, keeps the session consistent. */
  lemma AddNewWordPreservesConsistency(st: GameState, isReal: string -> bool)
    requires Consistent(st, isReal)
    ensures Consistent(AddNewWord(st, isReal), isReal)
  {
    var answer := Text.Normalize(st.newWord);
    if Validate(answer, st, isReal).None? {
      var r := AddNewWord(st, isReal);
      assert r.usedWords == [answer] + st.usedWords;
      Text.NormalizeIdempotent(st.newWord);
      assert TotalLength(r.usedWords) == |answer| + TotalLength(st.usedWords);
      forall i, j | 0 <= i < j < |r.usedWords|
        ensures r.usedWords[i] != r.usedWords[j]
      {
        if i == 0 {
          assert r.usedWords[j] in st.usedWords;
        } else {
          assert r.usedWords[i] == st.usedWords[i - 1] && r.usedWords[j] == st.usedWords[j - 1];
        }
      }
    }
  }

  /** An answer that normalises to two letters or fewer always gets the length alert. */
  lemma ShortAnswerRejected(st: GameState, isReal: string -> bool)
    requires |Text.Normalize(st.newWord)| <= 2
    ensures var r := AddNewWord(st, isReal);
      && r.errorTitle == "less than 3 letter"
      && r.errorMessage == "try words with more than two letters"
      && r.showingError
      && r.usedWords == st.usedWords && r.score == st.score
      && r.newWord == ResetInput
  {
  }

  /**
   The spell checker is asked last: when an earlier check fails, the outcome
   is the same whichever spell checker is plugged in.
   */
  lemma RealnessConsultedLast(st: GameState, isReal: string -> bool, other: string -> bool)
    requires var answer := Text.Normalize(st.newWord);
      Validate(answer, st, isReal).Some? && Validate(answer, st, isReal) != Some(NotReal)
    ensures Validate(Text.Normalize(st.newWord), st, other) == Validate(Text.Normalize(st.newWord), st, isReal)
    ensures AddNewWord(st, other) == AddNewWord(st, isReal)
  {
  }

  /** Submitting the field untouched after a submission is always the length error. */
  lemma ResubmittingResetInputIsTooShort(st: GameState, isReal: string -> bool)
    ensures var r := AddNewWord(AddNewWord(st, isReal), isReal);
      && r.errorTitle == Title(TooShort)
      && r.usedWords == AddNewWord(st, isReal).usedWords
  {
  }

  /** A session driven by the player: type each text in turn and submit it. */
  function Play(st: GameState, inputs: seq<string>, isReal: string -> bool): (r: GameState)
    ensures r.rootWord == st.rootWord
    ensures |r.usedWords| >= |st.usedWords|
    decreases |inputs|
  {
    if |inputs| == 0 then st
    else Play(Submit(st, inputs[0], isReal), inputs[1..], isReal)
  }

  /**
   The player types `text` and submits it: the root word stays, and every
   earlier accepted word stays, in order, at the back of the list.
   */
  function Submit(st: GameState, text: string, isReal: string -> bool): (r: GameState)
    ensures r.rootWord == st.rootWord
    ensures |r.usedWords| >= |st.usedWords|
    ensures r.usedWords[|r.usedWords| - |st.usedWords|..] == st.usedWords
  {
    AddNewWord(Type(st, text), isReal)
  }

  /** Any run of submissions after a new game keeps the session consistent. */
  lemma {:induction false} PlayPreservesConsistency(st: GameState, inputs: seq<string>, isReal: string -> bool)
    requires Consistent(st, isReal)
    ensures Consistent(Play(st, inputs, isReal), isReal)
    decreases |inputs|
  {
    if |inputs| > 0 {
      var typed := Type(st, inputs[0]);
      assert Consistent(typed, isReal);
      AddNewWordPreservesConsistency(typed, isReal);
      PlayPreservesConsistency(Submit(st, inputs[0], isReal), inputs[1..], isReal);
    }
  }

  /**
   With root word "silkworm": "Silk " is accepted as "silk", typing "silk"
   again is a duplicate, and "silkworms" needs a second 's'.
   */
  lemma SilkwormExample(st: GameState, isReal: string -> bool)
    requires st.rootWord == "silkworm" && st.usedWords == [] && st.score == 0
    requires isReal("silk")
    ensures var s1 := AddNewWord(Type(st, "Silk "), isReal);
      && s1.usedWords == ["silk"] && s1.score == 4
      && AddNewWord(Type(s1, "silk"), isReal).errorTitle == Title(Duplicate)
      && AddNewWord(Type(s1, "silkworms"), isReal).errorTitle == Title(NotPossible)
  {
    Text.NormalizeExample();
    Text.NormalizeOfNormal("silk");
    Text.NormalizeOfNormal("silkworms");
    SilkLetters();
    var s1 := AddNewWord(Type(st, "Silk "), isReal);
    assert Validate("silk", Type(st, "Silk "), isReal).None?;
    assert s1.usedWords == ["silk"];
    assert Validate("silk", Type(s1, "silk"), isReal) == Some(Duplicate);
    assert Validate("silkworms", Type(s1, "silkworms"), isReal) == Some(NotPossible);
  }

  /** "silk" fits in "silkworm"; "silkworms" needs a second 's'. */
  lemma SilkLetters()
    ensures multiset("silk") <= multiset("silkworm")
    ensures !(multiset("silkworms") <= multiset("silkworm"))
  {
  }
}
