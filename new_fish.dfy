/** The fish-name normaliser of src/newFish.ts: what the "new fish" command
    makes of the name typed into its input box. */
module NewFish {
  import opened Text
  import opened Optional

  /** The placeholder shown when the editor holds an untitled document. */
  const DefaultPlaceHolder: string := "enter fish name"

  /** The characters the pattern `[^a-zA-Z]` does not match. */
  predicate IsAsciiLetter(c: char) {
    'a' <= c <= 'z' || 'A' <= c <= 'Z'
  }

  /** `!input` in JavaScript: the input box was dismissed or left empty. */
  predicate IsMissing(input: Option<string>) {
    input.None? || input.value == []
  }

  /** `input || placeHolder`. */
  function BaseName(input: Option<string>, placeHolder: string): string {
    if IsMissing(input) then placeHolder else input.value
  }

  /** The name with `Fish` appended unless it already ends in "fish" in any
      letter case. */
  function WithFishSuffix(base: string): (r: string)
    ensures EndsWith(Upper(r), "FISH")
    ensures r == base || r == base + "Fish"
    ensures r == base <==> EndsWith(Upper(base), "FISH")
  {
    if EndsWith(Upper(base), "FISH") then base
    else
      assert Upper(base + "Fish")[|base|..] == "FISH";
      base + "Fish"
  }

  /** `s.replace(/[^a-zA-Z]/g, '_')`: every character other than an ASCII
      letter becomes an underscore; letters stay where they are. */
  function ReplaceNonLetters(s: string): (r: string)
    ensures |r| == |s|
    ensures forall i {:trigger r[i]} :: 0 <= i < |s| ==>
      r[i] == if IsAsciiLetter(s[i]) then s[i] else '_'
  {
    if |s| == 0 then []
    else [if IsAsciiLetter(s[0]) then s[0] else '_'] + ReplaceNonLetters(s[1..])
  }

  /** `processFishName(input, placeHolder)`. */
  function ProcessFishName(input: Option<string>, placeHolder: string): Option<string> {
    if IsMissing(input) && placeHolder == DefaultPlaceHolder then None
    else Some(ReplaceNonLetters(WithFishSuffix(BaseName(input, placeHolder))))
  }

  /** The output alphabet: ASCII letters and the underscore. */
  predicate IsFishIdentifier(s: string) {
    forall i :: 0 <= i < |s| ==> IsAsciiLetter(s[i]) || s[i] == '_'
  }

  /** Nothing comes back exactly when no name was typed and the placeholder is
      the default one; otherwise the result is the typed name (or the
      placeholder) with `Fish` appended unless it already ends in "fish", each
      non-letter replaced by `_`. The result only holds letters and `_`, its
      upper-cased form ends in `FISH`, and it is 0 or 4 characters longer than
      the name it comes from. */
  lemma ProcessFishNameShape(input: Option<string>, placeHolder: string)
    ensures ProcessFishName(input, placeHolder).None? <==>
      IsMissing(input) && placeHolder == DefaultPlaceHolder
    ensures ProcessFishName(input, placeHolder).Some? ==>
      var base := BaseName(input, placeHolder);
      var r := ProcessFishName(input, placeHolder).value;
      && IsFishIdentifier(r)
      && EndsWith(Upper(r), "FISH")
      && |r| == |base| + (if EndsWith(Upper(base), "FISH") then 0 else 4)
      && (forall i :: 0 <= i < |base| && IsAsciiLetter(base[i]) ==> r[i] == base[i])
      && (forall i :: 0 <= i < |base| && !IsAsciiLetter(base[i]) ==> r[i] == '_')
  {
    if ProcessFishName(input, placeHolder).Some? {
      var base := BaseName(input, placeHolder);
      var named := WithFishSuffix(base);
      var r := ReplaceNonLetters(named);
      assert forall i :: 0 <= i < |base| ==> named[i] == base[i];
      ReplaceKeepsFishEnding(named);
    }
  }

  /** The last four characters of a name whose upper-cased form ends in `FISH`
      are letters, so the replacement leaves them alone. */
  lemma ReplaceKeepsFishEnding(s: string)
    requires EndsWith(Upper(s), "FISH")
    ensures EndsWith(Upper(ReplaceNonLetters(s)), "FISH")
  {
    var u := Upper(s);
    var n := |u|;
    UpperCommutesWithReplace(s);
    assert u == u[..n - 4] + "FISH";
    ReplaceOfAppend(u[..n - 4], "FISH");
    ReplaceOfFish();
  }

  lemma ReplaceOfFish()
    ensures ReplaceNonLetters("FISH") == "FISH"
  {
    var r := ReplaceNonLetters("FISH");
    assert r[0] == 'F' && r[1] == 'I' && r[2] == 'S' && r[3] == 'H';
  }

  /** Upper-casing and replacing the non-letters can be done in either order. */
  lemma UpperCommutesWithReplace(s: string)
    ensures Upper(ReplaceNonLetters(s)) == ReplaceNonLetters(Upper(s))
  {
    var a, b := Upper(ReplaceNonLetters(s)), ReplaceNonLetters(Upper(s));
    forall i | 0 <= i < |s| ensures a[i] == b[i] {
      if IsAsciiLetter(s[i]) {
        assert IsAsciiLetter(UpperChar(s[i]));
      } else {
        assert !IsAsciiLetter(UpperChar(s[i]));
      }
    }
  }

  lemma {:induction false} ReplaceOfAppend(a: string, b: string)
    ensures ReplaceNonLetters(a + b) == ReplaceNonLetters(a) + ReplaceNonLetters(b)
  {
    var l, r := ReplaceNonLetters(a + b), ReplaceNonLetters(a) + ReplaceNonLetters(b);
    forall i | 0 <= i < |a + b| ensures l[i] == r[i] {
      if i < |a| {
        assert (a + b)[i] == a[i];
      } else {
        assert (a + b)[i] == b[i - |a|];
      }
    }
  }

  /** A name made of letters and underscores is left as it is. */
  lemma ReplaceKeepsIdentifier(s: string)
    requires IsFishIdentifier(s)
    ensures ReplaceNonLetters(s) == s
  {
    var r := ReplaceNonLetters(s);
    forall i | 0 <= i < |s| ensures r[i] == s[i] {
      if !IsAsciiLetter(s[i]) {
        assert s[i] == '_';
      }
    }
  }

  /** Normalising a normalised name changes nothing, whatever the
      placeholder. */
  lemma ProcessFishNameIdempotent(input: Option<string>, placeHolder: string, otherPlaceHolder: string)
    requires ProcessFishName(input, placeHolder).Some?
    ensures var r := ProcessFishName(input, placeHolder);
      ProcessFishName(r, otherPlaceHolder) == r
  {
    ProcessFishNameShape(input, placeHolder);
    var r := ProcessFishName(input, placeHolder).value;
    assert |r| >= 4;
    assert !IsMissing(Some(r));
    ReplaceKeepsIdentifier(r);
  }

  /** A typed name of letters and underscores is returned as it is when it
      already ends in "fish" in any letter case, and with `Fish` appended
      otherwise. */
  lemma ProcessFishNameOfIdentifier(name: string, placeHolder: string)
    requires name != [] && IsFishIdentifier(name)
    ensures ProcessFishName(Some(name), placeHolder) ==
      Some(if EndsWith(Upper(name), "FISH") then name else name + "Fish")
  {
    var named := WithFishSuffix(name);
    assert IsFishIdentifier(named) by {
      forall i | 0 <= i < |named| ensures IsAsciiLetter(named[i]) || named[i] == '_' {
        if i >= |name| {
          assert named[i] == "Fish"[i - |name|];
        }
      }
    }
    ReplaceKeepsIdentifier(named);
  }
}
