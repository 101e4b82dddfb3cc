/**
 * The bark accent (Content.Server/Speech/EntitySystems/BarkAccentSystem.cs):
 * a chat message is rewritten by a fixed table of word substitutions, every
 * `!` is replaced by one bark picked at random, and the Latin and Cyrillic
 * letters l/L and л/Л become r/R and р/Р. The random pick is the parameter
 * `bark`, which must be one of `Barks`.
 */
module BarkAccent {
  import opened Strings

  /** The barks a `!` may become; every one of them is picked with equal chance. */
  const Barks: seq<string> := [" Гав!", " ГАВ", " вуф-вуф"]

  /** The special words, in the order the dictionary enumerates them: its insertion order. */
  const SpecialWords: seq<(string, string)> := [
    ("Ah", "Arf"),
    ("oh", "oof"),
    ("Oh", "Oof"),
    ("га", "гаф"),
    ("Га", "Гаф"),
    ("угу", "вуф"),
    ("Угу", "Вуф")
  ]

  predicate NonEmptyPatterns(words: seq<(string, string)>) {
    forall k :: 0 <= k < |words| ==> |words[k].0| > 0
  }

  /** The `foreach` over the table: each word replaced in the text the previous words left. */
  function ApplyWords(message: string, words: seq<(string, string)>): string
    requires NonEmptyPatterns(words)
    decreases |words|
  {
    if words == [] then message
    else ApplyWords(Replace(message, words[0].0, words[0].1), words[1..])
  }

  /** The final four one-letter swaps, in the order the source chains them. */
  function Swaps(message: string): string {
    Replace(Replace(Replace(Replace(message, "l", "r"), "L", "R"), "л", "р"), "Л", "Р")
  }

  /** The letter each character becomes under `Swaps`. */
  function SwapChar(x: char): char {
    if x == 'l' then 'r'
    else if x == 'L' then 'R'
    else if x == 'л' then 'р'
    else if x == 'Л' then 'Р'
    else x
  }

  predicate IsSwapped(x: char) {
    x == 'l' || x == 'L' || x == 'л' || x == 'Л'
  }

  /** No special word of the table occurs in `m`. */
  predicate FreeOfSpecialWords(m: string) {
    forall k :: 0 <= k < |SpecialWords| ==> !Contains(m, SpecialWords[k].0)
  }

  predicate NoSwappedLetters(m: string) {
    forall i :: 0 <= i < |m| ==> !IsSwapped(m[i])
  }

  /** The whole rewrite `Accentuate` performs once `bark` has been picked. */
  function Accent(message: string, bark: string): string
    requires bark in Barks
  {
    Swaps(Replace(ApplyWords(message, SpecialWords), "!", bark))
  }

  /** `Accentuate`: the table loop, then the bark and letter replacements. */
  method Accentuate(message: string, bark: string) returns (r: string)
    requires bark in Barks
    ensures r == Accent(message, bark)
  {
    r := message;
    for k := 0 to |SpecialWords|
      invariant ApplyWords(r, SpecialWords[k..]) == ApplyWords(message, SpecialWords)
    {
      assert SpecialWords[k..][1..] == SpecialWords[k + 1..];
      r := Replace(r, SpecialWords[k].0, SpecialWords[k].1);
    }
    r := Replace(r, "!", bark);
    r := Replace(r, "l", "r");
    r := Replace(r, "L", "R");
    r := Replace(r, "л", "р");
    r := Replace(r, "Л", "Р");
  }

  // ---------------------------------------------------------------------------
  // Properties
  // ---------------------------------------------------------------------------

  /** `Swaps` is a position-wise letter swap: same length, each character through `SwapChar`. */
  lemma SwapsPointwise(m: string)
    ensures |Swaps(m)| == |m|
    ensures forall i :: 0 <= i < |m| ==> Swaps(m)[i] == SwapChar(m[i])
  {
    var m1 := Replace(m, "l", "r");
    var m2 := Replace(m1, "L", "R");
    var m3 := Replace(m2, "л", "р");
    ReplaceCharPointwise(m, 'l', 'r');
    ReplaceCharPointwise(m1, 'L', 'R');
    ReplaceCharPointwise(m2, 'л', 'р');
    ReplaceCharPointwise(m3, 'Л', 'Р');
  }

  /** The swaps leave no l, L, л or Л behind. */
  lemma SwapsRemoveL(m: string)
    ensures NoSwappedLetters(Swaps(m))
  {
    SwapsPointwise(m);
    var r := Swaps(m);
    forall i | 0 <= i < |r| ensures !IsSwapped(r[i]) {
      assert r[i] == SwapChar(m[i]);
    }
  }

  /** No accented message contains l, L, л or Л, whichever bark was picked. */
  lemma AccentHasNoL(message: string, bark: string)
    requires bark in Barks
    ensures NoSwappedLetters(Accent(message, bark))
  {
    SwapsRemoveL(Replace(ApplyWords(message, SpecialWords), "!", bark));
  }

  /**
   * Every `!` left by the word table becomes the same single bark, and nothing
   * else does: the text inserted for one `!`, itself ending in `!` for " Гав!",
   * is never scanned again.
   */
  lemma BarkReplacesEachBang(message: string, bark: string)
    requires bark in Barks
    ensures Accent(message, bark) == Swaps(ExpandChar(ApplyWords(message, SpecialWords), '!', bark))
  {
    ReplaceCharIsExpand(ApplyWords(message, SpecialWords), '!', bark);
  }

  /** A pattern of one character occurs only where that character does. */
  lemma {:induction false} ContainsChar(s: string, c: char)
    requires Contains(s, [c])
    ensures c in s
    decreases |s|
  {
    if s[..1] == [c] {
      assert s[0] == c;
    } else {
      ContainsChar(s[1..], c);
    }
  }

  /** A table none of whose words occurs in the text leaves it as it is. */
  lemma {:induction false} ApplyWordsUnchanged(message: string, words: seq<(string, string)>)
    requires NonEmptyPatterns(words)
    requires forall k :: 0 <= k < |words| ==> !Contains(message, words[k].0)
    ensures ApplyWords(message, words) == message
    decreases |words|
  {
    if words != [] {
      ApplyWordsUnchanged(message, words[1..]);
    }
  }

  /** A message with no special word, no `!` and no l, L, л, Л comes back unchanged. */
  lemma AccentUnchanged(message: string, bark: string)
    requires bark in Barks
    requires FreeOfSpecialWords(message)
    requires '!' !in message
    requires NoSwappedLetters(message)
    ensures Accent(message, bark) == message
  {
    var w := ApplyWords(message, SpecialWords);
    ApplyWordsUnchanged(message, SpecialWords);
    if Contains(message, "!") {
      ContainsChar(message, '!');
    }
    var b := Replace(w, "!", bark);
    assert b == message;
    SwapsIdentity(message);
  }

  /** Text without l, L, л, Л is left alone by the swaps. */
  lemma SwapsIdentity(m: string)
    requires NoSwappedLetters(m)
    ensures Swaps(m) == m
  {
    SwapsPointwise(m);
  }

  /** On text without special words and `!` the accent keeps the length and only swaps letters. */
  lemma AccentKeepsLength(message: string, bark: string)
    requires bark in Barks
    requires FreeOfSpecialWords(message)
    requires '!' !in message
    ensures |Accent(message, bark)| == |message|
    ensures forall i :: 0 <= i < |message| ==> Accent(message, bark)[i] == SwapChar(message[i])
  {
    ApplyWordsUnchanged(message, SpecialWords);
    if Contains(message, "!") {
      ContainsChar(message, '!');
    }
    assert Replace(message, "!", bark) == message;
    SwapsPointwise(message);
  }

  /** Replacement is one pass: "га" becomes "гаф" although "гаф" again contains "га". */
  lemma ReplaceDoesNotRecurse()
    ensures Replace("га", "га", "гаф") == "гаф"
    ensures Replace("!", "!", " Гав!") == " Гав!"
  {
    assert "га"[..2] == "га";
    assert "гаф"[..2] == "га";
    assert "!"[..1] == "!";
  }

  /**
   * One step of the word table rewrites the message at the leftmost
   * non-overlapping occurrences of the entry's word and nowhere else.
   */
  lemma WordStepIsLeftmost(m: string, k: nat)
    requires k < |SpecialWords|
    ensures var (w, rep) := SpecialWords[k];
      exists parts :: LeftmostParts(parts, w) && m == Join(parts, w) && Replace(m, w, rep) == Join(parts, rep)
  {
    ReplaceIsLeftmostSplit(m, SpecialWords[k].0, SpecialWords[k].1);
  }

  /** Occurrences that overlap are not both rewritten: "угугу" holds "угу" twice but becomes "вуфгу". */
  lemma OverlappingWordRewrittenOnce()
    ensures Replace("угугу", "угу", "вуф") == "вуфгу"
  {
    assert "угугу"[..3] == "угу";
    assert "угугу"[3..] == "гу";
  }

  // ---------------------------------------------------------------------------
  // The event handlers
  // ---------------------------------------------------------------------------

  /** AccentGetEvent: the message being spoken, rewritten in place by accent handlers. */
  class AccentGetEvent {
    var message: string

    constructor (message: string)
      ensures this.message == message
    {
      this.message := message;
    }
  }

  /** StatusEffectRelayedEvent<AccentGetEvent>: an accent event relayed through a status effect. */
  class StatusEffectRelayedEvent {
    const args: AccentGetEvent

    constructor (args: AccentGetEvent)
      ensures this.args == args
    {
      this.args := args;
    }
  }

  /** `OnAccent`: the event's message becomes its accented form. */
  method OnAccent(args: AccentGetEvent, bark: string)
    requires bark in Barks
    modifies args
    ensures args.message == Accent(old(args.message), bark)
  {
    args.message := Accentuate(args.message, bark);
  }

  /** `OnAccentRelayed`: the relayed event's inner message becomes its accented form. */
  method OnAccentRelayed(relayed: StatusEffectRelayedEvent, bark: string)
    requires bark in Barks
    modifies relayed.args
    ensures relayed.args.message == Accent(old(relayed.args.message), bark)
  {
    relayed.args.message := Accentuate(relayed.args.message, bark);
  }
}
