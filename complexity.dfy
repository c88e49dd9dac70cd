/**
 * main.py's password-strength rules: `evaluate_complexity` scores a password
 * by five tests, and the dialog maps the score to a label.
 */
module Complexity {

  import opened Wrappers

  /** `[A-Z]`. */
  predicate IsUpper(c: char) { 'A' <= c <= 'Z' }

  /** `[a-z]`. */
  predicate IsLower(c: char) { 'a' <= c <= 'z' }

  /** `\d`, restricted to ASCII digits. */
  predicate IsDigit(c: char) { '0' <= c <= '9' }

  /** The class `[!@#$%^&*(),.?":{}|<>]`. */
  predicate IsSpecial(c: char)
  {
    c in {'!', '@', '#', '$', '%', '^', '&', '*', '(', ')', ',', '.', '?', '"', ':', '{', '}', '|', '<', '>'}
  }

  /** `bool(re.search(r"[A-Z]", s))` and its siblings: some character passes the test. */
  predicate HasUpper(s: string) { exists i :: 0 <= i < |s| && IsUpper(s[i]) }
  predicate HasLower(s: string) { exists i :: 0 <= i < |s| && IsLower(s[i]) }
  predicate HasDigit(s: string) { exists i :: 0 <= i < |s| && IsDigit(s[i]) }
  predicate HasSpecial(s: string) { exists i :: 0 <= i < |s| && IsSpecial(s[i]) }

  /** `len(password) >= 12`. */
  predicate LongEnough(s: string) { |s| >= 12 }

  function Point(b: bool): nat { if b then 1 else 0 }

  /** `evaluate_complexity(password)`: one point per test that holds. */
  function EvaluateComplexity(password: string): (score: nat)
    ensures score <= 5
  {
    Point(LongEnough(password)) + Point(HasUpper(password)) + Point(HasLower(password))
      + Point(HasDigit(password)) + Point(HasSpecial(password))
  }

  /** The empty password passes no test. */
  lemma EmptyScoresZero()
    ensures EvaluateComplexity("") == 0
  {
  }

  /** The score is 5 exactly when all five tests hold, and 0 exactly when none does. */
  lemma ScoreExtremes(password: string)
    ensures EvaluateComplexity(password) == 5 <==>
      LongEnough(password) && HasUpper(password) && HasLower(password) && HasDigit(password) && HasSpecial(password)
    ensures EvaluateComplexity(password) == 0 <==>
      !LongEnough(password) && !HasUpper(password) && !HasLower(password) && !HasDigit(password) && !HasSpecial(password)
  {
  }

  /** Appending characters never lowers the score: every test that holds keeps holding. */
  lemma AppendingNeverLowersScore(s: string, t: string)
    ensures EvaluateComplexity(s) <= EvaluateComplexity(s + t)
  {
    var st := s + t;
    assert forall i :: 0 <= i < |s| ==> st[i] == s[i];
    if HasUpper(s) { var i :| 0 <= i < |s| && IsUpper(s[i]); assert IsUpper(st[i]); }
    if HasLower(s) { var i :| 0 <= i < |s| && IsLower(s[i]); assert IsLower(st[i]); }
    if HasDigit(s) { var i :| 0 <= i < |s| && IsDigit(s[i]); assert IsDigit(st[i]); }
    if HasSpecial(s) { var i :| 0 <= i < |s| && IsSpecial(s[i]); assert IsSpecial(st[i]); }
  }

  /** The labels `update_password_complexity` shows. */
  datatype Strength = VeryWeak | Weak | Medium | Good | VeryStrong
  {
    /** The text set on the label. */
    function Text(): string
    {
      match this
      case VeryWeak => "Сложность пароля: Очень слабый"
      case Weak => "Сложность пароля: Слабый"
      case Medium => "Сложность пароля: Средний"
      case Good => "Сложность пароля: Хороший"
      case VeryStrong => "Сложность пароля: Очень сильный"
    }

    /** The position of the label on the scale, weakest first. */
    function Rank(): nat
    {
      match this
      case VeryWeak => 0
      case Weak => 1
      case Medium => 2
      case Good => 3
      case VeryStrong => 4
    }
  }

  /**
   * The `if/elif` chain on the score: `None` when no branch applies and the
   * label keeps its text.
   */
  function StrengthOf(score: int): (s: Option<Strength>)
    ensures s.Some? <==> 0 <= score <= 5
    ensures s.Some? ==> s.value.Rank() == (if score < 4 then score else 4)
  {
    if score == 0 then Some(VeryWeak)
    else if score == 1 then Some(Weak)
    else if score == 2 then Some(Medium)
    else if score == 3 then Some(Good)
    else if score == 4 || score == 5 then Some(VeryStrong)
    else None
  }

  /** The labels are distinct texts, so the label tells the rank apart. */
  lemma TextsDistinct(a: Strength, b: Strength)
    ensures a.Text() == b.Text() ==> a == b
  {
    if a != b {
      assert |a.Text()| != |b.Text()| || a.Text()[18] != b.Text()[18];
    }
  }

  /**
   * Every password gets a label, and a higher score never gives a weaker one;
   * appending characters therefore never weakens the label.
   */
  lemma LabelFollowsScore(s: string, t: string)
    ensures StrengthOf(EvaluateComplexity(s)).Some?
    ensures StrengthOf(EvaluateComplexity(s)).value.Rank() <= StrengthOf(EvaluateComplexity(s + t)).value.Rank()
  {
    AppendingNeverLowersScore(s, t);
  }
}
