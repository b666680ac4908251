/** internal/store/helpers.go: the scan for SQL write keywords. Strings are byte sequences here, as Go indexes them. */
module WriteKeyword {
  import opened Text

  /** `unicode.IsLetter(rune(b))` for one byte b. */
  predicate IsLetter(c: char) {
    || ('A' <= c <= 'Z') || ('a' <= c <= 'z') || c == '\U{AA}' || c == '\U{B5}' || c == '\U{BA}'
    || ('\U{C0}' <= c <= '\U{FF}' && c != '\U{D7}' && c != '\U{F7}')
  }

  const KEYWORDS := ["INSERT", "UPDATE", "DELETE", "DROP", "ALTER", "CREATE"]

  predicate Bounded(s: string, i: nat, len: nat)
    requires i + len <= |s|
  {
    && (i == 0 || !IsLetter(s[i - 1]))
    && (i + len >= |s| || !IsLetter(s[i + len]))
  }

  /** kw stands at position i with no letter directly before or after it. */
  predicate StandsAt(s: string, kw: string, i: nat) {
    OccursAt(s, kw, i) && Bounded(s, i, |kw|)
  }

  /** Between the start of a hit and its end nothing can stand alone: a letter of the hit comes before it. */
  lemma NothingStandsInside(s: string, kw: string, hit: nat, i: nat)
    requires Only(kw, IsLetter) && OccursAt(s, kw, hit) && hit < i < hit + |kw|
    ensures !StandsAt(s, kw, i)
  {
    assert s[hit..hit + |kw|][i - 1 - hit] == s[i - 1];
  }

  /** The scan for one keyword of letters: a rejected hit is skipped as a whole. */
  method Scan(upper: string, kw: string) returns (found: bool)
    requires kw != "" && Only(kw, IsLetter)
    ensures found <==> exists i: nat :: StandsAt(upper, kw, i)
  {
    var idx := 0;
    while idx <= |upper| - |kw|
      invariant 0 <= idx
      invariant forall i: nat :: i < idx ==> !StandsAt(upper, kw, i)
      decreases |upper| - idx
    {
      var pos := IndexFrom(upper, kw, idx);
      if pos == None {
        return false;
      }
      var abs := pos.value;
      if Bounded(upper, abs, |kw|) {
        assert StandsAt(upper, kw, abs);
        return true;
      }
      forall i: nat | i < abs + |kw| ensures !StandsAt(upper, kw, i) {
        if abs < i { NothingStandsInside(upper, kw, abs, i); }
      }
      idx := abs + |kw|;
    }
    return false;
  }

  lemma KeywordsAreLetters()
    ensures forall k :: 0 <= k < |KEYWORDS| ==> KEYWORDS[k] != "" && Only(KEYWORDS[k], IsLetter)
  {}

  method ContainsWriteKeyword(upper: string) returns (found: bool)
    ensures found <==> exists k, i: nat :: 0 <= k < |KEYWORDS| && StandsAt(upper, KEYWORDS[k], i)
  {
    KeywordsAreLetters();
    for k := 0 to |KEYWORDS|
      invariant forall j, i: nat :: 0 <= j < k ==> !StandsAt(upper, KEYWORDS[j], i)
    {
      found := Scan(upper, KEYWORDS[k]);
      if found {
        return true;
      }
    }
    return false;
  }

  // ---- The documented boundaries ----

  /** The comment on the function names spaces, parentheses and the ends of the text. */
  predicate IsDocumented(c: char) { c == ' ' || c == '(' || c == ')' }

  predicate DocumentedAt(s: string, kw: string, i: nat) {
    && OccursAt(s, kw, i)
    && (i == 0 || IsDocumented(s[i - 1]))
    && (i + |kw| == |s| || IsDocumented(s[i + |kw|]))
  }

  /** A character directly before or after the occurrence that is neither a letter nor one of those. */
  predicate OtherBeside(s: string, kw: string, i: nat)
    requires i + |kw| <= |s|
  {
    || (i > 0 && !IsLetter(s[i - 1]) && !IsDocumented(s[i - 1]))
    || (i + |kw| < |s| && !IsLetter(s[i + |kw|]) && !IsDocumented(s[i + |kw|]))
  }

  ghost predicate Found(s: string) { exists k, i: nat :: 0 <= k < |KEYWORDS| && StandsAt(s, KEYWORDS[k], i) }

  ghost predicate DocumentedFound(s: string) {
    exists k, i: nat :: 0 <= k < |KEYWORDS| && DocumentedAt(s, KEYWORDS[k], i)
  }

  /** An occurrence counts in the code and not by the comment exactly when no letter, but some other character than
      those the comment names, is directly beside it. */
  lemma DocumentedIff(s: string, kw: string, i: nat)
    requires OccursAt(s, kw, i)
    ensures DocumentedAt(s, kw, i) <==> StandsAt(s, kw, i) && !OtherBeside(s, kw, i)
  {}

  /** What this means for a whole text: the code and the comment agree when nothing is found, or when some keyword that
      is found has none of those other characters beside it. */
  lemma RulesAgreeIff(s: string)
    ensures (Found(s) <==> DocumentedFound(s)) <==>
            (Found(s) ==> exists k, i: nat :: 0 <= k < |KEYWORDS| && StandsAt(s, KEYWORDS[k], i)
                                              && !OtherBeside(s, KEYWORDS[k], i))
  {
    forall k, i: nat | 0 <= k < |KEYWORDS| && OccursAt(s, KEYWORDS[k], i)
      ensures DocumentedAt(s, KEYWORDS[k], i) <==> StandsAt(s, KEYWORDS[k], i) && !OtherBeside(s, KEYWORDS[k], i)
    {
      DocumentedIff(s, KEYWORDS[k], i);
    }
  }

  /** They differ on a keyword after a digit. */
  lemma DigitIsABoundary()
    ensures Found("1DROP") && !DocumentedFound("1DROP")
  {
    var s := "1DROP";
    assert s[1..5] == "DROP" == KEYWORDS[3] && !IsLetter('1');
    assert StandsAt(s, KEYWORDS[3], 1);
    forall k, i: nat | 0 <= k < |KEYWORDS| ensures !DocumentedAt(s, KEYWORDS[k], i) {
      if OccursAt(s, KEYWORDS[k], i) {
        assert s[i] == KEYWORDS[k][0];
        assert i == 1;
      }
    }
  }

  // ---- The words ----

  /** What a letter is, in ASCII. */
  lemma LettersAre(c: char)
    requires c < '\U{80}'
    ensures IsLetter(c) <==> c in UPPER || c in LOWER
  {
    Alphabets(0);
    if 'A' <= c <= 'Z' { Alphabets(c as int - 'A' as int); }
    if 'a' <= c <= 'z' { Alphabets(c as int - 'a' as int); }
    if c in UPPER {
      var i: nat :| i < |UPPER| && UPPER[i] == c;
      Alphabets(i);
    }
    if c in LOWER {
      var i: nat :| i < |LOWER| && LOWER[i] == c;
      Alphabets(i);
    }
  }

  /** Text after which a word may begin: nothing, or what ends in a space, parenthesis, digit or semicolon. */
  predicate EndsFree(a: string) { a == "" || a[|a| - 1] in " ()09_;\n" }

  predicate BeginsFree(b: string) { b == "" || b[0] in " ()09_;\n" }

  lemma WordIsFound(k: nat, a: string, b: string)
    requires k < |KEYWORDS| && EndsFree(a) && BeginsFree(b)
    ensures Found(a + KEYWORDS[k] + b)
  {
    var s := a + KEYWORDS[k] + b;
    assert s[|a|..|a| + |KEYWORDS[k]|] == KEYWORDS[k];
    assert a != "" ==> s[|a| - 1] == a[|a| - 1];
    assert b != "" ==> s[|a| + |KEYWORDS[k]|] == b[0];
    assert StandsAt(s, KEYWORDS[k], |a|);
  }

  /** Each of the six words is found wherever it stands on its own. */
  lemma SixWords(a: string, b: string)
    requires EndsFree(a) && BeginsFree(b)
    ensures Found(a + "INSERT" + b) && Found(a + "UPDATE" + b) && Found(a + "DELETE" + b)
    ensures Found(a + "DROP" + b) && Found(a + "ALTER" + b) && Found(a + "CREATE" + b)
  {
    hide Found, EndsFree, BeginsFree;
    assert KEYWORDS[0] == "INSERT" && KEYWORDS[1] == "UPDATE" && KEYWORDS[2] == "DELETE";
    assert KEYWORDS[3] == "DROP" && KEYWORDS[4] == "ALTER" && KEYWORDS[5] == "CREATE";
    WordIsFound(0, a, b);
    WordIsFound(1, a, b);
    WordIsFound(2, a, b);
    WordIsFound(3, a, b);
    WordIsFound(4, a, b);
    WordIsFound(5, a, b);
  }

  /** Another word is not found, nor one of the six with a letter beside it. */
  lemma OtherWords()
    ensures !Found("SELECT * FROM x")
    ensures !Found("INSERTED")
  {
    forall k, i: nat | 0 <= k < |KEYWORDS| ensures !StandsAt("SELECT * FROM x", KEYWORDS[k], i) {
      if OccursAt("SELECT * FROM x", KEYWORDS[k], i) {
        assert "SELECT * FROM x"[i] == KEYWORDS[k][0] && "SELECT * FROM x"[i + 1] == KEYWORDS[k][1];
      }
    }
    forall k, i: nat | 0 <= k < |KEYWORDS| ensures !StandsAt("INSERTED", KEYWORDS[k], i) {
      if OccursAt("INSERTED", KEYWORDS[k], i) {
        assert "INSERTED"[i] == KEYWORDS[k][0] && "INSERTED"[i + 1] == KEYWORDS[k][1];
      }
    }
  }
}
