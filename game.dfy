/**
 * The word-submission engine of the WordScramble screen: the session state
 * (root word, accepted words, score, the pending answer and the alert), the
 * chain of checks an answer goes through, and the game reset.
 */
module WordScramble {
  import opened Wrappers
  import opened Text

  /** Why a non-empty answer is turned down, one case per check. */
  datatype Rejection = AlreadyUsed | NotPossible | NotReal | TooShort | SameAsRoot | TrivialSubstring
  {
    /** Position of the check in the chain: the checks run in declaration order. */
    function Rank(): nat {
      match this
      case AlreadyUsed => 0
      case NotPossible => 1
      case NotReal => 2
      case TooShort => 3
      case SameAsRoot => 4
      case TrivialSubstring => 5
    }

    /** The alert title shown for this rejection. */
    function Title(): string {
      match this
      case AlreadyUsed => "Слово, которое уже использовалось"
      case NotPossible => "Ошибка в слове"
      case NotReal => "Слово не распознано"
      case TooShort => "Слово слишком короткое"
      case SameAsRoot => "Слово не может быть исходным"
      case TrivialSubstring => "Слово слишком очевидное"
    }

    /** The alert message shown for this rejection; three of them quote the root word. */
    function Message(root: string): string {
      match this
      case AlreadyUsed => "Будь оригинальнее!"
      case NotPossible => "Вы не можете написать это слово '" + root + "'!"
      case NotReal => "Вы не можете просто так выдумать слова"
      case TooShort => "Используйте слова из трёх и более букв"
      case SameAsRoot => "Придумайте новое слово из букв '" + root + "'"
      case TrivialSubstring => "Нельзя использовать часть исходного слова '" + root + "' как есть"
    }
  }

  /** Whether `check` turns `answer` down, given the root word, the accepted
      words and the spell checker. */
  predicate Fails(check: Rejection, root: string, used: seq<string>, isReal: string -> bool, answer: string) {
    match check
    case AlreadyUsed => answer in used
    case NotPossible => !(multiset(answer) <= multiset(root))
    case NotReal => !isReal(answer)
    case TooShort => |answer| < 3
    case SameAsRoot => answer == root
    case TrivialSubstring => IsSubstring(answer, root)
  }

  /** The outcome of submitting a non-empty normalised `answer`: the first
      check that turns it down, or `None` when it is accepted. */
  function Verdict(root: string, used: seq<string>, isReal: string -> bool, answer: string): (r: Option<Rejection>)
    ensures r.Some? ==> Fails(r.value, root, used, isReal, answer)
  {
    if Fails(AlreadyUsed, root, used, isReal, answer) then Some(AlreadyUsed)
    else if Fails(NotPossible, root, used, isReal, answer) then Some(NotPossible)
    else if Fails(NotReal, root, used, isReal, answer) then Some(NotReal)
    else if Fails(TooShort, root, used, isReal, answer) then Some(TooShort)
    else if Fails(SameAsRoot, root, used, isReal, answer) then Some(SameAsRoot)
    else if Fails(TrivialSubstring, root, used, isReal, answer) then Some(TrivialSubstring)
    else None
  }

  /** What every accepted word satisfies with respect to the root word, apart
      from being new. */
  predicate Admissible(root: string, isReal: string -> bool, w: string) {
    multiset(w) <= multiset(root) && isReal(w) && |w| >= 3 && w != root && !IsSubstring(w, root)
  }

  predicate NoDuplicates(ws: seq<string>) {
    forall i, j | 0 <= i < j < |ws| :: ws[i] != ws[j]
  }

  /** Points for a list of accepted words: each is worth its length plus one. */
  function ScoreOf(ws: seq<string>): nat {
    if ws == [] then 0 else |ws[0]| + 1 + ScoreOf(ws[1..])
  }

  /** What the session keeps of every accepted word: it is in normal form and
      admissible for the root word. */
  predicate Stored(root: string, isReal: string -> bool, w: string) {
    Normalize(w) == w && Admissible(root, isReal, w)
  }

  /** The session invariant: accepted words are distinct, normalised and
      admissible for the root word, and the score is their total. */
  predicate SessionInvariant(root: string, isReal: string -> bool, used: seq<string>, score: int) {
    NoDuplicates(used)
    && (forall w | w in used :: Stored(root, isReal, w))
    && score == ScoreOf(used)
  }

  /** Putting a word that is not yet in a duplicate-free list in front keeps it duplicate-free. */
  lemma PrependKeepsDistinct(ws: seq<string>, w: string)
    requires NoDuplicates(ws) && w !in ws
    ensures NoDuplicates([w] + ws)
  {
    var ws' := [w] + ws;
    forall i, j | 0 <= i < j < |ws'| ensures ws'[i] != ws'[j] {
      assert ws'[j] == ws[j - 1];
      if i > 0 {
        assert ws'[i] == ws[i - 1];
      }
    }
  }

  /** Accepting a new answer that is normalised and admissible keeps the
      session invariant, with the answer in front and its length plus one added. */
  lemma AcceptKeepsInvariant(root: string, isReal: string -> bool, used: seq<string>, score: int, answer: string)
    requires SessionInvariant(root, isReal, used, score)
    requires answer !in used && Stored(root, isReal, answer)
    ensures SessionInvariant(root, isReal, [answer] + used, score + |answer| + 1)
  {
    var used' := [answer] + used;
    PrependKeepsDistinct(used, answer);
    assert used'[0] == answer && used'[1..] == used;
  }

  /** The screen's state as a value: the view's `@State` variables. */
  datatype Session = Session(
    usedWords: seq<string>, rootWord: string, newWord: string,
    errorTitle: string, errorMessage: string, showingError: bool, score: int)

  /** The effect of submitting the text field: an answer that normalises to
      the empty string is ignored; otherwise the first failing check raises its
      alert, or the answer is accepted. */
  function Submit(s: Session, isReal: string -> bool): (t: Session)
    ensures t.rootWord == s.rootWord
    ensures t.score >= s.score
  {
    var answer := Normalize(s.newWord);
    if answer == [] then s
    else match Verdict(s.rootWord, s.usedWords, isReal, answer)
      case Some(reason) =>
        s.(errorTitle := reason.Title(), errorMessage := reason.Message(s.rootWord), showingError := true)
      case None =>
        s.(usedWords := [answer] + s.usedWords, score := s.score + |answer| + 1, newWord := "")
  }

  /** The three outcomes of a submission. An empty answer changes nothing, not
      even the text field. A rejected answer leaves the used words, the score and
      the text field alone and shows the first failing check's alert. An
      accepted answer goes in front of the used words, scores its length plus
      one and clears the text field, and the alert is left alone. */
  lemma SubmitOutcome(s: Session, isReal: string -> bool)
    ensures var t := Submit(s, isReal);
            var answer := Normalize(s.newWord);
            var verdict := Verdict(s.rootWord, s.usedWords, isReal, answer);
            && (answer == [] ==> t == s)
            && (answer != [] && verdict.Some? ==>
                  t.usedWords == s.usedWords && t.score == s.score && t.newWord == s.newWord
                  && t.errorTitle == verdict.value.Title()
                  && t.errorMessage == verdict.value.Message(s.rootWord)
                  && t.showingError)
            && (answer != [] && verdict.None? ==>
                  t.usedWords == [answer] + s.usedWords && t.score == s.score + |answer| + 1
                  && t.newWord == ""
                  && t.errorTitle == s.errorTitle && t.errorMessage == s.errorMessage
                  && t.showingError == s.showingError)
  {
  }

  /** A submission keeps the session invariant. */
  lemma SubmitKeepsInvariant(s: Session, isReal: string -> bool)
    requires SessionInvariant(s.rootWord, isReal, s.usedWords, s.score)
    ensures var t := Submit(s, isReal);
            SessionInvariant(t.rootWord, isReal, t.usedWords, t.score)
  {
    var answer := Normalize(s.newWord);
    if answer != [] && Verdict(s.rootWord, s.usedWords, isReal, answer).None? {
      NormalizeIdempotent(s.newWord);
      AcceptedIffAdmissible(s.rootWord, s.usedWords, isReal, answer);
      AcceptKeepsInvariant(s.rootWord, isReal, s.usedWords, s.score, answer);
    }
  }

  /** Typing the same text again after it was accepted gets it rejected as
      already used, and changes nothing but the alert. */
  lemma SubmitTwice(s: Session, isReal: string -> bool)
    requires Normalize(s.newWord) != []
    requires Verdict(s.rootWord, s.usedWords, isReal, Normalize(s.newWord)).None?
    ensures var t := Submit(s, isReal).(newWord := s.newWord);
            Submit(t, isReal)
              == t.(errorTitle := AlreadyUsed.Title(), errorMessage := AlreadyUsed.Message(s.rootWord),
                    showingError := true)
  {
    ResubmissionRejected(s.rootWord, s.usedWords, isReal, Normalize(s.newWord));
  }

  /** Swift's `firstIndex(of:)`: the position of the first occurrence of `c`. */
  function FirstIndexOf(s: string, c: char): (r: Option<nat>)
    ensures r.None? <==> c !in s
    ensures r.Some? ==> r.value < |s| && s[r.value] == c && c !in s[..r.value]
  {
    if s == [] then None
    else if s[0] == c then Some(0)
    else match FirstIndexOf(s[1..], c)
      case None => None
      case Some(i) =>
        assert s[..i + 1] == [s[0]] + s[1..][..i];
        Some(i + 1)
  }

  /** Striking a letter off what is left of `root` after striking off `done`,
      when the letter is still there. */
  lemma StrikeFound(root: multiset<char>, done: multiset<char>, letter: char)
    requires done <= root && letter in root - done
    ensures done + multiset{letter} <= root
    ensures (root - done) - multiset{letter} == root - (done + multiset{letter})
  {
  }

  /** A letter no longer left in `root` after striking off `done` cannot be struck off. */
  lemma StrikeMissing(root: multiset<char>, done: multiset<char>, letter: char)
    requires done <= root && letter !in root - done
    ensures !(done + multiset{letter} <= root)
  {
    assert (done + multiset{letter})[letter] > root[letter];
  }

  /** One step of `isPossible`: `temp` is what is left of `root` after striking
      off the first `i` letters of `word`. Striking off an occurrence of the next
      letter keeps that relation one letter further. */
  lemma StrikeOff(root: string, word: string, i: nat, temp: string, pos: nat)
    requires i < |word| && pos < |temp| && temp[pos] == word[i]
    requires multiset(word[..i]) <= multiset(root)
    requires multiset(temp) == multiset(root) - multiset(word[..i])
    ensures multiset(word[..i + 1]) <= multiset(root)
    ensures multiset(temp[..pos] + temp[pos + 1..]) == multiset(root) - multiset(word[..i + 1])
  {
    var letter := word[i];
    assert word[..i + 1] == word[..i] + [letter];
    assert temp == temp[..pos] + [letter] + temp[pos + 1..];
    assert multiset(temp[..pos] + temp[pos + 1..]) == multiset(temp) - multiset{letter};
    StrikeFound(multiset(root), multiset(word[..i]), letter);
  }

  /** The other outcome of a step of `isPossible`: when the next letter is no
      longer in `temp`, `word` needs more of it than `root` has. */
  lemma StrikeOffFails(root: string, word: string, i: nat, temp: string)
    requires i < |word| && word[i] !in temp
    requires multiset(word[..i]) <= multiset(root)
    requires multiset(temp) == multiset(root) - multiset(word[..i])
    ensures !(multiset(word) <= multiset(root))
  {
    var letter := word[i];
    assert word[..i + 1] == word[..i] + [letter];
    StrikeMissing(multiset(root), multiset(word[..i]), letter);
    assert word == word[..i + 1] + word[i + 1..];
    assert multiset(word[..i + 1]) <= multiset(word);
  }

  /** Swift's `randomElement()`: some element of `xs`, or `None` when `xs` is empty.
      Which element is chosen is left open. */
  method RandomElement<T>(xs: seq<T>) returns (r: Option<T>)
    ensures r.None? <==> xs == []
    ensures r.Some? ==> r.value in xs
  {
    if xs == [] {
      return None;
    }
    var i :| 0 <= i < |xs|;
    return Some(xs[i]);
  }

  /** The screen's state. `isReal` stands for the English spell checker: it
      holds of a word the checker does not flag as misspelled. */
  class Game {
    var usedWords: seq<string>
    var rootWord: string
    var newWord: string
    var errorTitle: string
    var errorMessage: string
    var showingError: bool
    var score: int
    const isReal: string -> bool

    /** The session invariant, on the current state. */
    ghost predicate Valid()
      reads this
    {
      SessionInvariant(rootWord, isReal, usedWords, score)
    }

    /** The initial values of the screen's state. */
    constructor (isReal: string -> bool)
      ensures Valid()
      ensures this.isReal == isReal
      ensures usedWords == [] && rootWord == "" && newWord == ""
      ensures errorTitle == "" && errorMessage == "" && !showingError && score == 0
    {
      usedWords := [];
      rootWord := "";
      newWord := "";
      errorTitle := "";
      errorMessage := "";
      showingError := false;
      score := 0;
      this.isReal := isReal;
    }

    /** `isOriginal`: the word has not been accepted yet in this game. */
    function IsOriginal(word: string): (r: bool)
      reads this
      ensures r <==> forall k | 0 <= k < |usedWords| :: usedWords[k] != word
    {
      word !in usedWords
    }

    /** `isPossible`: strike each letter of `word` off a copy of the root word,
        the first matching occurrence each time. It succeeds exactly when the
        root word has every letter at least as often as `word` has it. */
    method IsPossible(word: string) returns (possible: bool)
      ensures possible <==> multiset(word) <= multiset(rootWord)
    {
      var tempWord := rootWord;
      for i := 0 to |word|
        invariant multiset(word[..i]) <= multiset(rootWord)
        invariant multiset(tempWord) == multiset(rootWord) - multiset(word[..i])
      {
        match FirstIndexOf(tempWord, word[i])
        case Some(pos) =>
          StrikeOff(rootWord, word, i, tempWord, pos);
          tempWord := tempWord[..pos] + tempWord[pos + 1..];
        case None =>
          StrikeOffFails(rootWord, word, i, tempWord);
          return false;
      }
      assert word[..|word|] == word;
      return true;
    }

    /** `wordError`: raise the alert with the given title and message. */
    method WordError(title: string, message: string)
      modifies this`errorTitle, this`errorMessage, this`showingError
      ensures errorTitle == title && errorMessage == message && showingError
    {
      errorTitle := title;
      errorMessage := message;
      showingError := true;
    }

    /** The guard chain of `addNewWord` for a non-empty answer: run the checks
        in order and stop at the first one that fails. */
    method FirstFailedCheck(answer: string) returns (rejection: Option<Rejection>)
      ensures rejection == Verdict(rootWord, usedWords, isReal, answer)
    {
      var original := IsOriginal(answer);
      if !original {
        return Some(AlreadyUsed);
      }
      var possible := IsPossible(answer);
      if !possible {
        return Some(NotPossible);
      }
      if !isReal(answer) {
        return Some(NotReal);
      }
      if |answer| < 3 {
        return Some(TooShort);
      }
      if answer == rootWord {
        return Some(SameAsRoot);
      }
      if IsSubstring(answer, rootWord) {
        return Some(TrivialSubstring);
      }
      return None;
    }

    /** Raise the alert for `reason`. */
    method Reject(reason: Rejection)
      modifies this`errorTitle, this`errorMessage, this`showingError
      ensures errorTitle == reason.Title() && errorMessage == reason.Message(rootWord) && showingError
    {
      WordError(reason.Title(), reason.Message(rootWord));
    }

    /** The current state as a `Session` value. */
    function State(): (s: Session)
      reads this
    {
      Session(usedWords, rootWord, newWord, errorTitle, errorMessage, showingError, score)
    }

    /** `addNewWord`: submit the text field, with the effect `Submit` describes,
        keeping the session invariant. */
    method AddNewWord()
      requires Valid()
      modifies this`usedWords, this`score, this`newWord, this`errorTitle, this`errorMessage, this`showingError
      ensures Valid()
      ensures State() == Submit(old(State()), isReal)
    {
      ghost var before := State();
      var answer := Normalize(newWord);
      if |answer| == 0 {
        return;
      }
      var rejection := FirstFailedCheck(answer);
      if rejection.Some? {
        Reject(rejection.value);
        assert State() == Submit(before, isReal);
        return;
      }
      score := score + |answer| + 1;
      usedWords := [answer] + usedWords;
      newWord := "";
      assert State() == Submit(before, isReal);
      SubmitKeepsInvariant(before, isReal);
    }

    /** `startGame`: clear the session, then pick the root word from the
        newline-separated word list `startWords`. `None` stands for a list
        that cannot be found or read, where the app stops with a fatal error:
        the session is already cleared and the root word is left as it was. */
    method StartGame(startWords: Option<string>) returns (loaded: bool)
      modifies this`usedWords, this`newWord, this`score, this`rootWord
      ensures Valid()
      ensures usedWords == [] && newWord == "" && score == 0
      ensures loaded <==> startWords.Some?
      ensures !loaded ==> rootWord == old(rootWord)
      ensures loaded ==> rootWord in SplitLines(startWords.value) && NewlineCount(rootWord) == 0
    {
      usedWords := [];
      newWord := "";
      score := 0;
      match startWords
      case None =>
        loaded := false;
      case Some(text) =>
        var allWords := SplitLines(text);
        var pick := RandomElement(allWords);
        rootWord := match pick case Some(w) => w case None => "silkworm";
        loaded := true;
    }
  }

  /** The verdict is a given rejection exactly when that check fails and no
      check ranked before it does. */
  lemma VerdictIsFirstFailure(root: string, used: seq<string>, isReal: string -> bool, answer: string, c: Rejection)
    ensures Verdict(root, used, isReal, answer) == Some(c)
        <==> Fails(c, root, used, isReal, answer)
             && forall d: Rejection | d.Rank() < c.Rank() :: !Fails(d, root, used, isReal, answer)
  {
  }

  /** An answer is accepted exactly when no check turns it down. */
  lemma AcceptedIffNoCheckFails(root: string, used: seq<string>, isReal: string -> bool, answer: string)
    ensures Verdict(root, used, isReal, answer).None?
        <==> forall c: Rejection :: !Fails(c, root, used, isReal, answer)
  {
  }

  /** Once a word is in front of the used words, as accepting it puts it,
      the same word fails as already used. */
  lemma ResubmissionRejected(root: string, used: seq<string>, isReal: string -> bool, w: string)
    ensures Verdict(root, [w] + used, isReal, w) == Some(AlreadyUsed)
  {
    assert Fails(AlreadyUsed, root, [w] + used, isReal, w);
  }

  /** A word is accepted exactly when it is new and admissible. */
  lemma AcceptedIffAdmissible(root: string, used: seq<string>, isReal: string -> bool, w: string)
    ensures Verdict(root, used, isReal, w).None? <==> w !in used && Admissible(root, isReal, w)
  {
  }

  /** Submitting the root word itself (not yet used) is reported as the root
      word only when the spell checker and the length check let it through. */
  lemma RootWordVerdict(root: string, used: seq<string>, isReal: string -> bool)
    requires root !in used
    ensures Verdict(root, used, isReal, root)
         == Some(if !isReal(root) then NotReal else if |root| < 3 then TooShort else SameAsRoot)
  {
    assert Fails(SameAsRoot, root, used, isReal, root);
  }

  /** A new proper piece of the root word is reported as too obvious, unless
      the spell checker or the length check turns it down first. */
  lemma SubstringVerdict(root: string, used: seq<string>, isReal: string -> bool, w: string)
    requires IsSubstring(w, root) && w != root && w !in used
    ensures Verdict(root, used, isReal, w)
         == Some(if !isReal(w) then NotReal else if |w| < 3 then TooShort else TrivialSubstring)
  {
    SubstringLettersAvailable(w, root);
    assert Fails(TrivialSubstring, root, used, isReal, w);
  }

  /** With an empty root word every non-empty answer is impossible. */
  lemma EmptyRootRejectsAll(used: seq<string>, isReal: string -> bool, w: string)
    requires w != [] && w !in used
    ensures Verdict("", used, isReal, w) == Some(NotPossible)
  {
    assert w[0] in multiset(w);
    assert Fails(NotPossible, "", used, isReal, w);
  }

  /** Each accepted word scores at least four points. */
  lemma {:induction false} ScoreAtLeastFourPerWord(ws: seq<string>)
    requires forall k | 0 <= k < |ws| :: |ws[k]| >= 3
    ensures ScoreOf(ws) >= 4 * |ws|
  {
    if ws != [] {
      ScoreAtLeastFourPerWord(ws[1..]);
    }
  }

  /** In every session the score is at least four points per accepted word. */
  lemma SessionScoreBound(root: string, isReal: string -> bool, used: seq<string>, score: int)
    requires SessionInvariant(root, isReal, used, score)
    ensures score >= 4 * |used|
  {
    forall k | 0 <= k < |used| ensures |used[k]| >= 3 {
      assert Stored(root, isReal, used[k]);
    }
    ScoreAtLeastFourPerWord(used);
  }

  /** The score of two lists of words together is the sum of their scores. */
  lemma {:induction false} ScoreOfAppend(a: seq<string>, b: seq<string>)
    ensures ScoreOf(a + b) == ScoreOf(a) + ScoreOf(b)
  {
    if a != [] {
      assert (a + b)[0] == a[0];
      assert (a + b)[1..] == a[1..] + b;
      ScoreOfAppend(a[1..], b);
      assert ScoreOf(a + b) == |a[0]| + 1 + ScoreOf(a[1..] + b);
    } else {
      assert a + b == b;
    }
  }

  /** The accepted words in submission order, oldest first: the reverse of
      the newest-first `usedWords`. */
  function Reversed(ws: seq<string>): (r: seq<string>)
    ensures |r| == |ws|
    ensures forall k | 0 <= k < |ws| :: r[k] == ws[|ws| - 1 - k]
  {
    if ws == [] then [] else Reversed(ws[1..]) + [ws[0]]
  }

  /** The accepted words are kept newest first; summed in submission order
      they give the same score. */
  lemma {:induction false} ScoreInSubmissionOrder(ws: seq<string>)
    ensures ScoreOf(Reversed(ws)) == ScoreOf(ws)
  {
    if ws != [] {
      ScoreInSubmissionOrder(ws[1..]);
      ScoreOfAppend(Reversed(ws[1..]), [ws[0]]);
      assert ScoreOf([ws[0]]) == |ws[0]| + 1 + ScoreOf([ws[0]][1..]);
    }
  }
}
