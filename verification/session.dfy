/**
 * How the drivers combine the two halves: the pattern `get_answer` computes
 * for a guess is the pattern `play` folds into the state.
 */
module Session {
  import Feedback
  import Engine
  import opened Wrappers
  import Symbols

  /** A letter marked green or yellow occurs in the target. */
  lemma CreditedLetterInTarget(guess: string, target: string, j: nat)
    requires |guess| <= |target| && j < |guess|
    requires Feedback.GetAnswer(guess, target)[j] != Symbols.Grey
    ensures guess[j] in target
  {
    var c := guess[j];
    if guess[j] != target[j] {
      var tc := Feedback.TargetLeft(guess, target);
      assert Feedback.Unmatched(guess, target, c) > 0;
      assert Some(c) in tc;
      var k := Feedback.IndexOf(tc, Some(c));
      assert target[k] == c;
    }
  }

  /**
   * `play` records a grey letter as absent even when another copy of it in the
   * same guess is green or yellow, and so occurs in the target.
   */
  lemma GreyCopyMarkedAbsent(s: Engine.State, guess: string, target: string, i: nat, j: nat)
    requires |guess| <= |target| && |guess| <= |s.known|
    requires i < |guess| && j < |guess| && guess[i] == guess[j]
    requires Feedback.GetAnswer(guess, target)[i] == Symbols.Grey
    requires Feedback.GetAnswer(guess, target)[j] != Symbols.Grey
    ensures guess[i] in target
    ensures guess[i] in Engine.Play(s, guess, Feedback.GetAnswer(guess, target)).notPossible
  {
    CreditedLetterInTarget(guess, target, j);
  }

  /** Playing a word against itself fixes every position to that word's letters. */
  lemma SolvedFixesKnown(s: Engine.State, w: string)
    requires |w| == |s.known|
    ensures Engine.Play(s, w, Feedback.GetAnswer(w, w)).known == w
  {
    var r := Engine.Play(s, w, Feedback.GetAnswer(w, w));
    assert forall k :: 0 <= k < |w| ==> r.known[k] == w[k];
  }
}
