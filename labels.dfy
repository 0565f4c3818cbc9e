/** Display labels for legend and tooltip entries: the series key with its
    final `_segment` removed (`.replace(/_[^_]+$/, "")`) and every remaining
    underscore turned into a space (`.replace(/_/g, " ")`). */
module Labels {

  /** The pattern `_[^_]+$` matches at position `p`: an underscore followed by
      at least one character, none of them an underscore, up to the end. */
  predicate SuffixAt(s: string, p: int)
  {
    0 <= p < |s| - 1 && s[p] == '_' && forall i :: p < i < |s| ==> s[i] != '_'
  }

  /** The position of the last underscore in `s`, if any. */
  function LastUnderscore(s: string): (p: int)
    ensures -1 <= p < |s|
    ensures p >= 0 ==> s[p] == '_'
    ensures forall i :: p < i < |s| ==> s[i] != '_'
  {
    if s == [] then -1
    else if s[|s| - 1] == '_' then |s| - 1
    else LastUnderscore(s[..|s| - 1])
  }

  /** Removes the final `_segment`. The pattern can match in at most one
      place, the last underscore, and only when something follows it. */
  function StripSuffix(s: string): (t: string)
    ensures forall p :: SuffixAt(s, p) ==> t == s[..p]
    ensures (forall p :: !SuffixAt(s, p)) ==> t == s
  {
    var p := LastUnderscore(s);
    if p >= 0 && p < |s| - 1 then
      assert SuffixAt(s, p);
      s[..p]
    else
      assert forall q :: !SuffixAt(s, q) by {
        forall q | 0 <= q < |s| - 1 && s[q] == '_' ensures exists i :: q < i < |s| && s[i] == '_' {
          assert q < |s| - 1 <= p;
        }
      }
      s
  }

  /** Every underscore becomes a space; nothing else changes. */
  function Spaced(s: string): (t: string)
    ensures |t| == |s|
    ensures forall i :: 0 <= i < |s| ==> t[i] == if s[i] == '_' then ' ' else s[i]
  {
    if s == [] then []
    else [if s[0] == '_' then ' ' else s[0]] + Spaced(s[1..])
  }

  /** The label shown for a series key. */
  function CleanLabel(s: string): (t: string)
    ensures '_' !in t
    ensures |t| <= |s|
  {
    Spaced(StripSuffix(s))
  }

  /** A key without underscores is shown as it is. */
  lemma {:induction false} CleanLabelNoUnderscore(s: string)
    requires '_' !in s
    ensures CleanLabel(s) == s
  {
    assert forall p :: !SuffixAt(s, p);
    assert Spaced(s) == s;
  }

  /** Cleaning an already clean label changes nothing. */
  lemma {:induction false} CleanLabelIdempotent(s: string)
    ensures CleanLabel(CleanLabel(s)) == CleanLabel(s)
  {
    CleanLabelNoUnderscore(CleanLabel(s));
  }

  /** The label is the key up to its final `_segment`, underscores spaced;
      a key ending in an underscore keeps everything. */
  lemma {:induction false} CleanLabelShape(s: string, p: int)
    requires 0 <= p < |s| && s[p] == '_' && forall i :: p < i < |s| ==> s[i] != '_'
    ensures p < |s| - 1 ==> CleanLabel(s) == Spaced(s[..p])
    ensures p == |s| - 1 ==> CleanLabel(s) == Spaced(s)
  {
    if p == |s| - 1 {
      forall q ensures !SuffixAt(s, q) {
        if 0 <= q < |s| - 1 && s[q] == '_' {
          assert s[|s| - 1] == '_';
        }
      }
    } else {
      assert SuffixAt(s, p);
    }
  }

  /** Worked example: the price series of the S&P 500. */
  lemma CleanLabelSP500()
    ensures CleanLabel("S&P_500_Price") == "S&P 500"
  {
    var key := "S&P_500_Price";
    CleanLabelShape(key, 7);
    assert key[..7] == "S&P_500";
    var t := Spaced("S&P_500");
    assert |t| == 7 && t[3] == ' ';
    assert t == "S&P 500";
  }

  /** Worked example: a key ending in an underscore does not match the
      pattern, so only the underscore is spaced. */
  lemma CleanLabelTrailingUnderscore()
    ensures CleanLabel("Oil_") == "Oil "
  {
    CleanLabelShape("Oil_", 3);
    var t := Spaced("Oil_");
    assert |t| == 4 && t[3] == ' ';
    assert t == "Oil ";
  }
}
