/**
 * `Calculator.parseFileName` (calculator.js:33-55): the checkpoint tokens a
 * file name carries, one per `_`-separated component of the form
 * `PC<n>START`, `CO<n>GOAL`, ... in any letter case.
 */
module FileName {
  import opened Wrappers
  import opened Text
  import opened Seqs

  /**
   * One checkpoint token: the upper-case category (`PC` or `CO`), the
   * checkpoint number, the upper-case direction (`START` or `GOAL`) and the
   * section key exactly as written in the name (category letters and digits).
   */
  datatype Token = Token(category: string, number: nat, kind: string, section: string)

  /** The category and digit run that make up a section key as written. */
  predicate IsSectionKey(key: string) {
    |key| >= 3 && Upper(key[..2]) in {"PC", "CO"} && AllDigits(key[2..], 10)
  }

  /**
   * The token a component stands for when the whole component matches
   * `/^(PC|CO)(\d+)(START|GOAL)$/i`, and `None` otherwise.
   */
  function MatchComponent(c: string): (r: Option<Token>)
    ensures r.Some? ==> var t := r.value;
      && IsSectionKey(t.section)
      && t.category == Upper(t.section[..2]) && t.number == Value(t.section[2..], 10)
      && |t.section| <= |c| && c[..|t.section|] == t.section
      && t.kind == Upper(c[|t.section|..]) && t.kind in {"START", "GOAL"}
  {
    if |c| < 2 then None
    else
      var prefix := c[..2];
      var n := LeadingDigits(c[2..], 10);
      var digits := c[2..][..n];
      var suffix := c[2 + n..];
      if Upper(prefix) in {"PC", "CO"} && n > 0 && Upper(suffix) in {"START", "GOAL"} then
        assert (prefix + digits)[..2] == prefix && (prefix + digits)[2..] == digits;
        assert c[..2 + n] == prefix + digits;
        Some(Token(Upper(prefix), Value(digits, 10), Upper(suffix), prefix + digits))
      else None
  }

  /** Every component of the documented shape matches, whatever its letter case. */
  lemma MatchShaped(prefix: string, digits: string, suffix: string)
    requires |prefix| == 2 && Upper(prefix) in {"PC", "CO"}
    requires digits != [] && AllDigits(digits, 10)
    requires Upper(suffix) in {"START", "GOAL"}
    ensures MatchComponent(prefix + digits + suffix)
         == Some(Token(Upper(prefix), Value(digits, 10), Upper(suffix), prefix + digits))
  {
    var c := prefix + digits + suffix;
    SuffixNotDigit(suffix);
    assert c[2..] == digits + suffix;
    LeadingDigitsOf(digits, suffix, 10);
    assert c[..2] == prefix;
    assert c[2..][..|digits|] == digits;
    assert c[2 + |digits|..] == suffix;
  }

  lemma SuffixNotDigit(suffix: string)
    requires Upper(suffix) in {"START", "GOAL"}
    ensures suffix != [] && !IsDigit(suffix[0], 10)
  {
    assert |Upper(suffix)| == |suffix| >= 4;
    assert Upper(suffix)[0] == UpperChar(suffix[0]);
  }

  /** The `_`-separated components of a name once its first `.csv` is removed. */
  function Components(filename: string): (parts: seq<string>)
    ensures |parts| >= 1
  {
    Split(RemoveFirst(filename, ".csv"), '_')
  }

  /** `Calculator.parseFileName`: one token per matching component, in order. */
  function ParseFileName(filename: string): (tokens: seq<Token>)
    ensures |tokens| <= |Components(filename)|
  {
    FilterMap(MatchComponent, Components(filename))
  }

  /**
   * `replace('.csv', '')` removes the first `.csv` wherever it stands: behind
   * a dot-free prefix it is cut out, and whatever follows it stays.
   */
  lemma RemoveCsvAnywhere(p: string, q: string)
    requires '.' !in p
    ensures RemoveFirst(p + ".csv" + q, ".csv") == p + q
  {
    var name := p + ".csv" + q;
    assert OccursAt(name, ".csv", |p|) by {
      assert name[|p|..|p| + 4] == ".csv";
    }
    forall j: nat | j < |p| ensures !OccursAt(name, ".csv", j) {
      assert p[j] in p;
      assert name[j] == p[j] != '.';
      assert j + 4 <= |name| ==> name[j..j + 4][0] == name[j];
    }
    var k := IndexOf(name, ".csv");
    assert k.Some?;
    assert k.value >= |p|;
    assert k.value <= |p|;
    assert name[..|p|] == p && name[|p| + 4..] == q;
  }

  /** Removing the first `.csv` from a dot-free base plus `.csv` gives back the base. */
  lemma RemoveCsvSuffix(base: string)
    requires '.' !in base
    ensures RemoveFirst(base + ".csv", ".csv") == base
  {
    RemoveCsvAnywhere(base, []);
    assert base + ".csv" + [] == base + ".csv" && base + [] == base;
  }

  /** A component holding a `.` never matches: neither a section key nor a direction has one. */
  lemma MatchNoDot(c: string)
    requires '.' in c
    ensures MatchComponent(c) == None
  {
    MatchedHasNoDot(c);
  }

  lemma MatchedHasNoDot(c: string)
    ensures MatchComponent(c).Some? ==> '.' !in c
  {
    if MatchComponent(c).Some? {
      var t := MatchComponent(c).value;
      SectionKeyNoDot(t.section);
      DirectionNoDot(c[|t.section|..]);
      assert c == t.section + c[|t.section|..];
    }
  }

  lemma SectionKeyNoDot(key: string)
    requires IsSectionKey(key)
    ensures '.' !in key
  {
    forall i | 0 <= i < |key| ensures key[i] != '.' {
      if i < 2 {
        assert Upper(key[..2])[i] == UpperChar(key[i]);
      } else {
        assert key[2..][i - 2] == key[i];
      }
    }
  }

  lemma DirectionNoDot(suffix: string)
    requires Upper(suffix) in {"START", "GOAL"}
    ensures '.' !in suffix
  {
    forall i | 0 <= i < |suffix| ensures suffix[i] != '.' {
      assert Upper(suffix)[i] == UpperChar(suffix[i]);
    }
  }

  /**
   * A name built from components without `_` or `.`, plus `.csv`, yields
   * exactly the tokens of its matching components, in order; the others are
   * skipped without invalidating the name.
   */
  lemma ParseComponents(components: seq<string>)
    requires |components| >= 1
    requires forall i :: 0 <= i < |components| ==> '_' !in components[i] && '.' !in components[i]
    ensures ParseFileName(Join(components, '_') + ".csv") == FilterMap(MatchComponent, components)
  {
    JoinAvoids(components, '_', '.');
    RemoveCsvSuffix(Join(components, '_'));
    SplitJoin(components, '_');
  }

  /** What every token of a name looks like, and where it comes from. */
  lemma TokensOfName(filename: string, t: Token)
    requires t in ParseFileName(filename)
    ensures t.category in {"PC", "CO"} && t.kind in {"START", "GOAL"}
    ensures IsSectionKey(t.section) && t.category == Upper(t.section[..2])
    ensures exists i :: 0 <= i < |Components(filename)| && MatchComponent(Components(filename)[i]) == Some(t)
  {
    FilterMapMember(MatchComponent, Components(filename), t);
  }

  /** The tokens of a name with two components, each free of `_` and `.`. */
  lemma ParseTwoComponents(a: string, b: string)
    requires '_' !in a && '.' !in a && '_' !in b && '.' !in b
    ensures ParseFileName(a + "_" + b + ".csv")
         == (match MatchComponent(a) case Some(t) => [t] case None => [])
          + (match MatchComponent(b) case Some(t) => [t] case None => [])
  {
    var components := [a, b];
    assert Join(components, '_') + ".csv" == a + "_" + b + ".csv" by {
      assert components[1..] == [b];
    }
    ParseComponents(components);
    assert components == [a] + [b];
    FilterMapAppend(MatchComponent, [a], [b]);
    FilterMapOne(MatchComponent, a);
    FilterMapOne(MatchComponent, b);
  }

  /** A component written out as its parts, with the values the parts stand for. */
  lemma MatchExample(c: string, prefix: string, digits: string, suffix: string, category: string, n: nat, kind: string)
    requires c == prefix + digits + suffix
    requires |prefix| == 2 && Upper(prefix) == category && category in {"PC", "CO"}
    requires digits != [] && AllDigits(digits, 10) && Value(digits, 10) == n
    requires Upper(suffix) == kind && kind in {"START", "GOAL"}
    ensures MatchComponent(c) == Some(Token(category, n, kind, prefix + digits))
  {
    MatchShaped(prefix, digits, suffix);
  }

  lemma UpperLetters()
    ensures Upper("pc") == "PC" && Upper("PC") == "PC"
    ensures Upper("START") == "START" && Upper("GOAL") == "GOAL"
  {
  }

  lemma OneDigit(d: char)
    requires '0' <= d <= '9'
    ensures AllDigits([d], 10) && Value([d], 10) == d as int - '0' as int
  {
    assert [d][..0] == [];
  }

  /** A component of a two-letter category, one digit and a direction matches with those values. */
  lemma OneDigitKey(prefix: string, d: char, suffix: string, category: string, kind: string)
    requires |prefix| == 2 && Upper(prefix) == category && category in {"PC", "CO"}
    requires '0' <= d <= '9'
    requires Upper(suffix) == kind && kind in {"START", "GOAL"}
    ensures MatchComponent(prefix + [d] + suffix) == Some(Token(category, d as int - '0' as int, kind, prefix + [d]))
  {
    OneDigit(d);
    MatchExample(prefix + [d] + suffix, prefix, [d], suffix, category, d as int - '0' as int, kind);
  }

  /** Section keys keep their letter case: `pc1START_PC1GOAL.csv` names two sections, `pc1` and `PC1`. */
  lemma CasePreservingKeys()
    ensures ParseFileName("pc1START_PC1GOAL.csv")
         == [Token("PC", 1, "START", "pc1"), Token("PC", 1, "GOAL", "PC1")]
  {
    TwoComponentName();
    ParseTwoComponents("pc1START", "PC1GOAL");
    LowerCaseStart();
    UpperCaseGoal();
  }

  /** `pc1START` matches, its key kept in lower case. */
  lemma LowerCaseStart()
    ensures MatchComponent("pc1START") == Some(Token("PC", 1, "START", "pc1"))
  {
    UpperLetters();
    assert "pc1START" == "pc" + ['1'] + "START" && "pc" + ['1'] == "pc1";
    OneDigitKey("pc", '1', "START", "PC", "START");
  }

  /** `PC1GOAL` matches. */
  lemma UpperCaseGoal()
    ensures MatchComponent("PC1GOAL") == Some(Token("PC", 1, "GOAL", "PC1"))
  {
    UpperLetters();
    assert "PC1GOAL" == "PC" + ['1'] + "GOAL" && "PC" + ['1'] == "PC1";
    OneDigitKey("PC", '1', "GOAL", "PC", "GOAL");
  }

  /** `PC2START` matches. */
  lemma SecondStart()
    ensures MatchComponent("PC2START") == Some(Token("PC", 2, "START", "PC2"))
  {
    UpperLetters();
    assert "PC2START" == "PC" + ['2'] + "START" && "PC" + ['2'] == "PC2";
    OneDigitKey("PC", '2', "START", "PC", "START");
  }

  lemma TwoComponentName()
    ensures "pc1START_PC1GOAL.csv" == "pc1START" + "_" + "PC1GOAL" + ".csv"
    ensures '_' !in "pc1START" && '.' !in "pc1START" && '_' !in "PC1GOAL" && '.' !in "PC1GOAL"
  {
  }

  /** A component shorter than two characters, or not starting with `PC` or `CO` in some letter case, gives no token. */
  lemma MatchNeedsCategory(c: string)
    requires |c| < 2 || Upper(c[..2]) !in {"PC", "CO"}
    ensures MatchComponent(c) == None
  {
  }

  lemma MatchRejectsWord()
    ensures MatchComponent("notes") == None
  {
    assert Upper("no") == "NO";
  }

  /**
   * A `.csv` inside the name: only the first is removed, so the last
   * component keeps its `.csv`, fails to match, and its token is lost.
   */
  lemma CsvInsideName()
    ensures Components("PC2START.csv_PC1GOAL.csv") == ["PC2START", "PC1GOAL.csv"]
    ensures ParseFileName("PC2START.csv_PC1GOAL.csv") == [Token("PC", 2, "START", "PC2")]
  {
    CsvInsideComponents();
    var parts := ["PC2START", "PC1GOAL.csv"];
    assert parts == ["PC2START"] + ["PC1GOAL.csv"];
    FilterMapAppend(MatchComponent, ["PC2START"], ["PC1GOAL.csv"]);
    FilterMapOne(MatchComponent, "PC2START");
    FilterMapOne(MatchComponent, "PC1GOAL.csv");
    SecondStart();
    MatchNoDot("PC1GOAL.csv");
  }

  lemma CsvInsideComponents()
    ensures Components("PC2START.csv_PC1GOAL.csv") == ["PC2START", "PC1GOAL.csv"]
  {
    CsvInsideSpelled();
    RemoveCsvAnywhere("PC2START", "_PC1GOAL.csv");
    SplitJoin(["PC2START", "PC1GOAL.csv"], '_');
  }

  lemma CsvInsideSpelled()
    ensures "PC2START.csv_PC1GOAL.csv" == "PC2START" + ".csv" + "_PC1GOAL.csv"
    ensures "PC2START" + "_PC1GOAL.csv" == Join(["PC2START", "PC1GOAL.csv"], '_')
    ensures '.' !in "PC2START" && '_' !in "PC2START" && '_' !in "PC1GOAL.csv"
  {
    var parts := ["PC2START", "PC1GOAL.csv"];
    assert parts[1..] == ["PC1GOAL.csv"];
  }

  /** A component that does not match is skipped; the rest of the name still counts. */
  lemma BadComponentSkipped()
    ensures ParseFileName("PC2START_notes.csv") == [Token("PC", 2, "START", "PC2")]
  {
    assert "PC2START_notes.csv" == "PC2START" + "_" + "notes" + ".csv";
    ParseTwoComponents("PC2START", "notes");
    SecondStart();
    MatchRejectsWord();
  }
}
