/**
 * `Calculator.buildSections` (calculator.js:58-94): one section per section
 * key found in the file names, each with the last file claiming its START and
 * GOAL roles, ordered PC before CO and by number.
 */
module Sections {
  import opened Wrappers
  import opened Text
  import opened Seqs
  import opened Csv
  import opened FileName

  /** A checkpoint section and the files that supply its start and goal crossings. */
  datatype Section = Section(
    category: string, number: nat, section: string,
    startFile: Option<string>, goalFile: Option<string>)

  /** A token together with the file whose name carries it. */
  datatype Claim = Claim(file: string, token: Token)

  /** The tokens, each paired with the file name. */
  function Tag(name: string, tokens: seq<Token>): (claims: seq<Claim>)
    ensures |claims| == |tokens|
  {
    seq(|tokens|, i requires 0 <= i < |tokens| => Claim(name, tokens[i]))
  }

  /** The tokens of one file name, each paired with the name. */
  function FileClaims(name: string): (claims: seq<Claim>)
    ensures |claims| == |ParseFileName(name)|
  {
    Tag(name, ParseFileName(name))
  }

  /** Every token of every file name, files in input order, tokens in name order. */
  function AllClaims(files: seq<ParsedFile>): seq<Claim> {
    if files == [] then []
    else AllClaims(files[..|files| - 1]) + FileClaims(files[|files| - 1].name)
  }

  /** The section map under construction: its keys in insertion order, and the map. */
  datatype Table = Table(order: seq<string>, byKey: map<string, Section>)

  /** The order lists each key of the map exactly once, and each section sits under its own key. */
  ghost predicate Keyed(t: Table) {
    && (forall i, j :: 0 <= i < j < |t.order| ==> t.order[i] != t.order[j])
    && (forall i :: 0 <= i < |t.order| ==> t.order[i] in t.byKey)
    && (forall k :: k in t.byKey ==> k in t.order && t.byKey[k].section == k)
  }

  /** One step of the loop at calculator.js:64-82: create the section if new, then set the role. */
  function Record(t: Table, c: Claim): Table {
    var key := c.token.section;
    var t1 :=
      if key in t.byKey then t
      else Table(t.order + [key], t.byKey[key := Section(c.token.category, c.token.number, key, None, None)]);
    var s := t1.byKey[key];
    var s1 :=
      if c.token.kind == "START" then s.(startFile := Some(c.file))
      else if c.token.kind == "GOAL" then s.(goalFile := Some(c.file))
      else s;
    Table(t1.order, t1.byKey[key := s1])
  }

  /** The section map after recording every claim in turn. */
  function Replay(claims: seq<Claim>): (t: Table)
    ensures Keyed(t)
  {
    if claims == [] then Table([], map[])
    else Record(Replay(claims[..|claims| - 1]), claims[|claims| - 1])
  }

  lemma ReplaySnoc(claims: seq<Claim>, c: Claim)
    ensures Replay(claims + [c]) == Record(Replay(claims), c)
  {
    assert (claims + [c])[..|claims|] == claims;
  }

  lemma AllClaimsSnoc(files: seq<ParsedFile>, i: nat)
    requires i < |files|
    ensures AllClaims(files[..i + 1]) == AllClaims(files[..i]) + FileClaims(files[i].name)
  {
    assert files[..i + 1][..i] == files[..i];
  }

  /** The map's values in insertion order (`Array.from(sectionMap.values())`). */
  function Values(t: Table): seq<Section>
    requires Keyed(t)
  {
    seq(|t.order|, i requires 0 <= i < |t.order| => t.byKey[t.order[i]])
  }

  /** The comparator of calculator.js:86-91. */
  function Compare(a: Section, b: Section): int {
    if a.category != b.category then (if a.category == "PC" then -1 else 1)
    else a.number - b.number
  }

  /** `a` sorts after `b`. */
  predicate After(a: Section, b: Section) {
    Compare(a, b) > 0
  }

  /** The sections `buildSections` returns. */
  function SectionsOf(files: seq<ParsedFile>): seq<Section> {
    SortBy(Values(Replay(AllClaims(files))), After)
  }

  /** `Calculator.buildSections` */
  method BuildSections(files: seq<ParsedFile>) returns (sections: seq<Section>)
    ensures sections == SectionsOf(files)
  {
    var order: seq<string> := [];
    var byKey: map<string, Section> := map[];
    for i := 0 to |files|
      invariant Table(order, byKey) == Replay(AllClaims(files[..i]))
    {
      var name := files[i].name;
      var fileInfo := ParseFileName(name);
      ghost var done := AllClaims(files[..i]);
      ghost var claims := FileClaims(name);
      assert done + claims[..0] == done;
      for j := 0 to |fileInfo|
        invariant Table(order, byKey) == Replay(done + claims[..j])
      {
        ghost var before := done + claims[..j];
        ghost var t0 := Table(order, byKey);
        var info := fileInfo[j];
        assert claims[j] == Claim(name, info);
        var key := info.section;
        if key !in byKey {
          order := order + [key];
          byKey := byKey[key := Section(info.category, info.number, info.section, None, None)];
        }
        var section := byKey[key];
        if info.kind == "START" {
          section := section.(startFile := Some(name));
        } else if info.kind == "GOAL" {
          section := section.(goalFile := Some(name));
        }
        byKey := byKey[key := section];
        assert Table(order, byKey) == Record(t0, claims[j]);
        ReplaySnoc(before, claims[j]);
        PrefixExtend(done, claims, j);
      }
      assert claims[..|fileInfo|] == claims;
      AllClaimsSnoc(files, i);
    }
    assert files[..|files|] == files;
    sections := SortBy(Values(Table(order, byKey)), After);
  }


  /** A token as `MatchComponent` produces it. */
  ghost predicate TokenOk(t: Token) {
    IsSectionKey(t.section) && t.category == Upper(t.section[..2])
    && t.number == Value(t.section[2..], 10) && t.kind in {"START", "GOAL"}
  }

  /** A section whose category and number are those its key spells. */
  ghost predicate SectionOk(s: Section) {
    IsSectionKey(s.section) && s.category == Upper(s.section[..2]) && s.number == Value(s.section[2..], 10)
  }

  /** The file's name carries the claim's token, and the claim names that file. */
  ghost predicate Carries(f: ParsedFile, c: Claim) {
    c.file == f.name && c.token in ParseFileName(f.name)
  }

  lemma {:induction false} AllClaimsMember(files: seq<ParsedFile>, c: Claim)
    ensures c in AllClaims(files) <==> AnyOf(files, (f: ParsedFile) => Carries(f, c))
  {
    if files != [] {
      var last := files[|files| - 1];
      AllClaimsMember(files[..|files| - 1], c);
      TagMember(last.name, ParseFileName(last.name), c);
      AnyOfSnoc(files, (f: ParsedFile) => Carries(f, c));
    }
  }

  lemma TagMember(name: string, tokens: seq<Token>, c: Claim)
    ensures c in Tag(name, tokens) <==> c.file == name && c.token in tokens
  {
    var claims := Tag(name, tokens);
    if c in claims {
      var k :| 0 <= k < |claims| && claims[k] == c;
      assert tokens[k] == c.token;
    }
    if c.file == name && c.token in tokens {
      var k :| 0 <= k < |tokens| && tokens[k] == c.token;
      assert claims[k] == c;
    }
  }

  lemma ClaimsOk(files: seq<ParsedFile>)
    ensures forall c :: c in AllClaims(files) ==> TokenOk(c.token)
  {
    forall c | c in AllClaims(files) ensures TokenOk(c.token) {
      AllClaimsMember(files, c);
      var i :| 0 <= i < |files| && Carries(files[i], c);
      TokensOfName(files[i].name, c.token);
    }
  }

  lemma {:induction false} ReplayOk(claims: seq<Claim>)
    requires forall c :: c in claims ==> TokenOk(c.token)
    ensures forall k :: k in Replay(claims).byKey ==> SectionOk(Replay(claims).byKey[k])
  {
    if claims != [] {
      var init := claims[..|claims| - 1];
      assert forall c :: c in init ==> c in claims;
      ReplayOk(init);
      assert claims[|claims| - 1] in claims;
    }
  }

  /** Some claim is on the key. */
  ghost predicate KeyClaimed(claims: seq<Claim>, key: string) {
    exists i :: 0 <= i < |claims| && claims[i].token.section == key
  }

  /** Some token is for the key. */
  ghost predicate TokensName(tokens: seq<Token>, key: string) {
    exists t :: t in tokens && t.section == key
  }

  /** The file name carries a token for the key. */
  ghost predicate NameHasKey(name: string, key: string) {
    TokensName(ParseFileName(name), key)
  }

  /** Some file name carries a token for the key. */
  ghost predicate KeyNamed(files: seq<ParsedFile>, key: string) {
    AnyOf(files, (f: ParsedFile) => NameHasKey(f.name, key))
  }

  lemma {:induction false} ReplayKeys(claims: seq<Claim>, key: string)
    ensures key in Replay(claims).byKey <==> KeyClaimed(claims, key)
  {
    if claims != [] {
      var init := claims[..|claims| - 1];
      ReplayKeys(init, key);
      RecordKeys(Replay(init), claims[|claims| - 1], key);
      KeyClaimedSnoc(claims, key);
    }
  }

  lemma RecordKeys(t: Table, c: Claim, key: string)
    ensures key in Record(t, c).byKey <==> key in t.byKey || key == c.token.section
  {
  }

  lemma KeyClaimedSnoc(claims: seq<Claim>, key: string)
    requires claims != []
    ensures KeyClaimed(claims, key)
        <==> KeyClaimed(claims[..|claims| - 1], key) || claims[|claims| - 1].token.section == key
  {
    var init := claims[..|claims| - 1];
    if KeyClaimed(init, key) {
      var i :| 0 <= i < |init| && init[i].token.section == key;
      assert claims[i] == init[i];
    }
    if KeyClaimed(claims, key) && claims[|claims| - 1].token.section != key {
      var i :| 0 <= i < |claims| && claims[i].token.section == key;
      assert init[i] == claims[i];
    }
  }

  lemma KeyClaimedAppend(a: seq<Claim>, b: seq<Claim>, key: string)
    ensures KeyClaimed(a + b, key) <==> KeyClaimed(a, key) || KeyClaimed(b, key)
  {
    if KeyClaimed(a + b, key) {
      var i :| 0 <= i < |a + b| && (a + b)[i].token.section == key;
      if i >= |a| {
        assert b[i - |a|] == (a + b)[i];
      }
    }
    if KeyClaimed(b, key) {
      var i :| 0 <= i < |b| && b[i].token.section == key;
      assert (a + b)[|a| + i] == b[i];
      assert KeyClaimed(a + b, key);
    }
    if KeyClaimed(a, key) {
      var i :| 0 <= i < |a| && a[i].token.section == key;
      assert (a + b)[i] == a[i];
    }
  }

  lemma KeyClaimedTag(name: string, tokens: seq<Token>, key: string)
    ensures KeyClaimed(Tag(name, tokens), key) <==> TokensName(tokens, key)
  {
    if TokensName(tokens, key) {
      var t :| t in tokens && t.section == key;
      var i :| 0 <= i < |tokens| && tokens[i] == t;
      assert Tag(name, tokens)[i].token == t;
    }
  }

  lemma FileClaimsKeys(name: string, key: string)
    ensures KeyClaimed(FileClaims(name), key) <==> NameHasKey(name, key)
  {
    KeyClaimedTag(name, ParseFileName(name), key);
  }

  lemma {:induction false} AllClaimsKeys(files: seq<ParsedFile>, key: string)
    ensures KeyClaimed(AllClaims(files), key) <==> KeyNamed(files, key)
  {
    if files != [] {
      var n := |files| - 1;
      AllClaimsKeys(files[..n], key);
      KeyClaimedAppend(AllClaims(files[..n]), FileClaims(files[n].name), key);
      FileClaimsKeys(files[n].name, key);
      AnyOfSnoc(files, (f: ParsedFile) => NameHasKey(f.name, key));
    }
  }

  /** Some section in the list has the key. */
  ghost predicate HasSection(sections: seq<Section>, key: string) {
    exists j :: 0 <= j < |sections| && sections[j].section == key
  }

  /** The sorted values of a table hold no two sections with the same key. */
  lemma SortedValuesDistinct(t: Table)
    requires Keyed(t)
    ensures KeysDistinct(SortBy(Values(t), After), (s: Section) => s.section)
  {
    SortByKeysDistinct(Values(t), After, (s: Section) => s.section);
  }

  /** The sorted values of a table hold a section for exactly the keys of its map. */
  lemma SortedValuesKeys(t: Table, key: string)
    requires Keyed(t)
    ensures HasSection(SortBy(Values(t), After), key) <==> key in t.byKey
  {
    var values := Values(t);
    var out := SortBy(values, After);
    if HasSection(out, key) {
      var j :| 0 <= j < |out| && out[j].section == key;
      SortByHas(values, After, out[j]);
      var m :| 0 <= m < |values| && values[m] == out[j];
    }
    if key in t.byKey {
      var m :| 0 <= m < |t.order| && t.order[m] == key;
      SortByHas(values, After, values[m]);
      var j :| 0 <= j < |out| && out[j] == values[m];
    }
  }

  /** No two sections of the list share a key. */
  ghost predicate UniqueKeys(sections: seq<Section>) {
    forall i, j :: 0 <= i < j < |sections| ==> sections[i].section != sections[j].section
  }

  /** No two sections share a key. */
  lemma SectionKeysDistinct(files: seq<ParsedFile>)
    ensures UniqueKeys(SectionsOf(files))
  {
    SortedValuesDistinct(Replay(AllClaims(files)));
  }

  /** There is a section for a key exactly when some file name carries that key. */
  lemma SectionPerKey(files: seq<ParsedFile>, key: string)
    ensures HasSection(SectionsOf(files), key) <==> KeyNamed(files, key)
  {
    var claims := AllClaims(files);
    SortedValuesKeys(Replay(claims), key);
    ReplayKeys(claims, key);
    AllClaimsKeys(files, key);
  }

  /** Some token claims the role. */
  ghost predicate TokensClaim(tokens: seq<Token>, key: string, kind: string) {
    exists t :: t in tokens && t.section == key && t.kind == kind
  }

  /** The file name carries a token for the key in the given direction. */
  ghost predicate NameClaims(name: string, key: string, kind: string) {
    TokensClaim(ParseFileName(name), key, kind)
  }

  /** File `i` claims the role and no later file does. */
  ghost predicate ClaimsLast(files: seq<ParsedFile>, key: string, kind: string, i: int) {
    0 <= i < |files| && NameClaims(files[i].name, key, kind)
    && forall j :: i < j < |files| ==> !NameClaims(files[j].name, key, kind)
  }

  /** The last file, in input order, whose name claims the role; `None` when no file does. */
  ghost function LastClaimant(files: seq<ParsedFile>, key: string, kind: string): (r: Option<string>)
    ensures r.None? <==> forall i :: 0 <= i < |files| ==> !NameClaims(files[i].name, key, kind)
    ensures r.Some? ==> exists i :: ClaimsLast(files, key, kind, i) && files[i].name == r.value
  {
    var last := LastIndex(files, (f: ParsedFile) => NameClaims(f.name, key, kind));
    if last.None? then None
    else
      assert ClaimsLast(files, key, kind, last.value);
      Some(files[last.value].name)
  }

  lemma LastClaimantSnoc(files: seq<ParsedFile>, key: string, kind: string)
    requires files != []
    ensures LastClaimant(files, key, kind)
         == if NameClaims(files[|files| - 1].name, key, kind) then Some(files[|files| - 1].name)
            else LastClaimant(files[..|files| - 1], key, kind)
  {
    var p := (f: ParsedFile) => NameClaims(f.name, key, kind);
    var init := files[..|files| - 1];
    if !p(files[|files| - 1]) {
      var r := LastIndex(init, p);
      if r.Some? {
        assert init[r.value] == files[r.value];
      }
    }
  }

  /** The file of the last claim on the role. */
  function LastClaim(claims: seq<Claim>, key: string, kind: string): Option<string> {
    if claims == [] then None
    else if claims[|claims| - 1].token.section == key && claims[|claims| - 1].token.kind == kind
    then Some(claims[|claims| - 1].file)
    else LastClaim(claims[..|claims| - 1], key, kind)
  }

  /** The file a section of the table holds for a role. */
  function Role(t: Table, key: string, kind: string): Option<string> {
    if key !in t.byKey then None
    else if kind == "START" then t.byKey[key].startFile
    else t.byKey[key].goalFile
  }

  /** Recording claims one by one leaves each role with the last claim on it. */
  lemma {:induction false} ReplayRole(claims: seq<Claim>, key: string, kind: string)
    requires kind in {"START", "GOAL"}
    ensures Role(Replay(claims), key, kind) == LastClaim(claims, key, kind)
  {
    if claims != [] {
      ReplayRole(claims[..|claims| - 1], key, kind);
    }
  }

  lemma {:induction false} LastClaimAppend(a: seq<Claim>, b: seq<Claim>, key: string, kind: string)
    ensures LastClaim(a + b, key, kind)
         == if LastClaim(b, key, kind).Some? then LastClaim(b, key, kind) else LastClaim(a, key, kind)
  {
    if b == [] {
      assert a + b == a;
    } else {
      assert (a + b)[..|a + b| - 1] == a + b[..|b| - 1];
      LastClaimAppend(a, b[..|b| - 1], key, kind);
    }
  }

  lemma {:induction false} LastClaimTag(name: string, tokens: seq<Token>, key: string, kind: string)
    ensures LastClaim(Tag(name, tokens), key, kind) == if TokensClaim(tokens, key, kind) then Some(name) else None
  {
    if tokens != [] {
      var n := |tokens| - 1;
      var init := tokens[..n];
      assert Tag(name, tokens)[..n] == Tag(name, init);
      LastClaimTag(name, init, key, kind);
      if TokensClaim(tokens, key, kind) && !(tokens[n].section == key && tokens[n].kind == kind) {
        var t :| t in tokens && t.section == key && t.kind == kind;
        var i :| 0 <= i < |tokens| && tokens[i] == t;
        assert init[i] == t;
      }
    }
  }

  lemma {:induction false} AllClaimsRole(files: seq<ParsedFile>, key: string, kind: string)
    ensures LastClaim(AllClaims(files), key, kind) == LastClaimant(files, key, kind)
  {
    if files != [] {
      var init := files[..|files| - 1];
      var name := files[|files| - 1].name;
      AllClaimsRole(init, key, kind);
      LastClaimAppend(AllClaims(init), FileClaims(name), key, kind);
      LastClaimTag(name, ParseFileName(name), key, kind);
      LastClaimantSnoc(files, key, kind);
    }
  }

  lemma SectionInTable(t: Table, s: Section)
    requires Keyed(t) && s in SortBy(Values(t), After)
    ensures s.section in t.byKey && t.byKey[s.section] == s
  {
    SortByHas(Values(t), After, s);
    var m :| 0 <= m < |t.order| && Values(t)[m] == s;
    assert t.byKey[t.order[m]] == s;
  }

  /**
   * Last write wins: each section's start (goal) file is the last file, in
   * input order, whose name carries a START (GOAL) token for its key, and
   * `None` when no name does.
   */
  lemma LastFileWins(files: seq<ParsedFile>, s: Section)
    requires s in SectionsOf(files)
    ensures s.startFile == LastClaimant(files, s.section, "START")
    ensures s.goalFile == LastClaimant(files, s.section, "GOAL")
  {
    var claims := AllClaims(files);
    SectionInTable(Replay(claims), s);
    ReplayRole(claims, s.section, "START");
    ReplayRole(claims, s.section, "GOAL");
    AllClaimsRole(files, s.section, "START");
    AllClaimsRole(files, s.section, "GOAL");
  }

  /** Every section's category and number are the ones its key spells. */
  lemma SectionsOk(files: seq<ParsedFile>)
    ensures forall s :: s in SectionsOf(files) ==> SectionOk(s) && s.category in {"PC", "CO"}
  {
    var t := Replay(AllClaims(files));
    ClaimsOk(files);
    ReplayOk(AllClaims(files));
    forall s | s in SectionsOf(files) ensures SectionOk(s) && s.category in {"PC", "CO"} {
      SectionInTable(t, s);
    }
  }

  /** Every PC section comes before every CO section, and numbers ascend within a category. */
  lemma SectionsOrdered(files: seq<ParsedFile>)
    ensures forall i, j :: 0 <= i < j < |SectionsOf(files)| ==>
      var a, b := SectionsOf(files)[i], SectionsOf(files)[j];
      !(a.category == "CO" && b.category == "PC") && (a.category == b.category ==> a.number <= b.number)
  {
    var values := Values(Replay(AllClaims(files)));
    var out := SortBy(values, After);
    SectionsOk(files);
    SortByMembers(values, After);
    assert forall s :: s in values ==> s in out;
    AfterStrict(values);
    SortBySorted(values, After);
    SortedSections(out);
  }

  /** `After` is a strict order on sections whose category is `PC` or `CO`. */
  lemma AfterStrict(sections: seq<Section>)
    requires forall s :: s in sections ==> s.category in {"PC", "CO"}
    ensures StrictOn(sections, After)
  {
  }

  lemma SortedSections(sections: seq<Section>)
    requires SortedBy(sections, After)
    requires forall s :: s in sections ==> s.category in {"PC", "CO"}
    ensures forall i, j :: 0 <= i < j < |sections| ==>
      var a, b := sections[i], sections[j];
      !(a.category == "CO" && b.category == "PC") && (a.category == b.category ==> a.number <= b.number)
  {
    forall i, j | 0 <= i < j < |sections|
      ensures var a, b := sections[i], sections[j];
        !(a.category == "CO" && b.category == "PC") && (a.category == b.category ==> a.number <= b.number)
    {
      assert !After(sections[i], sections[j]);
      assert sections[i] in sections && sections[j] in sections;
    }
  }
}
