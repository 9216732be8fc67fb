/**
 SQLite's `x LIKE '%' || term || '%'`: whether `term` occurs in `x`,
 comparing characters with SQLite's built-in case folding, which folds the
 26 ASCII letters and nothing else.
 */
module Like {
  function LowerAscii(c: char): (r: char)
    ensures 'A' <= c <= 'Z' ==> r as int == c as int + 32
    ensures !('A' <= c <= 'Z') ==> r == c
  {
    if 'A' <= c <= 'Z' then (c as int + 32) as char else c
  }

  /** The text with every ASCII capital replaced by its small letter. */
  function Fold(s: string): (r: string)
    ensures |r| == |s|
    ensures forall i :: 0 <= i < |s| ==> r[i] == LowerAscii(s[i])
  {
    seq(|s|, i requires 0 <= i < |s| => LowerAscii(s[i]))
  }

  /** The term occurs in the text starting at position `i`, ignoring ASCII case. */
  predicate MatchAt(text: string, term: string, i: int) {
    0 <= i && i + |term| <= |text| && Fold(text[i..i + |term|]) == Fold(term)
  }

  lemma MatchAtTail(text: string, term: string, i: int)
    requires |text| > 0 && 0 <= i
    ensures MatchAt(text[1..], term, i) <==> MatchAt(text, term, i + 1)
  {
    if i + |term| <= |text| - 1 {
      assert text[1..][i..i + |term|] == text[i + 1..i + 1 + |term|];
    }
  }

  /** `text LIKE '%term%'` for a term without wildcard characters. */
  function Contains(text: string, term: string): (r: bool)
    ensures r <==> exists i :: MatchAt(text, term, i)
    decreases |text|
  {
    if MatchAt(text, term, 0) then true
    else if |text| == 0 then false
    else
      var rest := Contains(text[1..], term);
      assert rest ==> exists i :: MatchAt(text, term, i) by {
        if rest {
          var i :| MatchAt(text[1..], term, i);
          MatchAtTail(text, term, i);
        }
      }
      assert (exists i :: MatchAt(text, term, i)) ==> rest by {
        if exists i :: MatchAt(text, term, i) {
          var i :| MatchAt(text, term, i);
          MatchAtTail(text, term, i - 1);
        }
      }
      rest
  }

  /** The empty term matches every text, the empty one included: `x LIKE '%%'` holds for any `x`. */
  lemma EmptyTermMatchesEverything(text: string)
    ensures Contains(text, "")
  {
    assert MatchAt(text, "", 0);
  }

  /** The empty term matches every text; case differences in ASCII letters do not matter. */
  lemma ContainsExamples()
    ensures Contains("", "")
    ensures Contains("Dune", "")
    ensures Contains("The Hobbit", "hobbit")
    ensures !Contains("Dune", "dunes")
  {
    assert MatchAt("", "", 0);
    assert MatchAt("Dune", "", 0);
    assert "The Hobbit"[4..10] == "Hobbit";
    assert Fold("Hobbit") == "hobbit";
    assert Fold("hobbit") == "hobbit";
    assert MatchAt("The Hobbit", "hobbit", 4);
  }
}
