/** The sentence compositor of the generator: the display value of a resolved
    vocabulary row, the object `chosen` that maps slot names to rows, the global
    replacement of every `{slot_name}` placeholder in the template pattern, and the
    whitespace tokenisation of the result. */
module Compose {
  import opened JsText
  import opened Store
  import Coercion

  // ---- display value ----------------------------------------------------------

  /** `v[field]` read as text: the named column, the decimal id when it is non-zero
      (a number, truthy unless 0), and `undefined` ("") for any other name. */
  function FieldOf(v: Vocabulary, field: string): string {
    if field == "kanji" then v.kanji
    else if field == "furigana" then v.furigana
    else if field == "romaji" then v.romaji
    else if field == "meaning" then v.meaning
    else if field == "part_of_speech" then v.partOfSpeech
    else if field == "topic" then v.topic
    else if field == "subtopic" then v.subtopic
    else if field == "politeness_level" then v.politenessLevel
    else if field == "jlpt_level" then v.jlptLevel
    else if field == "difficulty" then v.difficulty
    else if field == "notes" then v.notes
    else if field == "created_at" then v.createdAt
    else if field == "updated_at" then v.updatedAt
    else if field == "id" then (if v.id != 0 then Coercion.IntToString(v.id) else "")
    else ""
  }

  /** The fallback chain of the display value, in the order it is tried. */
  function DisplayChain(v: Vocabulary, field: string): seq<string> {
    [FieldOf(v, field), v.kanji, v.romaji, v.furigana, v.meaning]
  }

  /** `v[displayField] || v.kanji || v.romaji || v.furigana || v.meaning`, and ''
      when all are falsy: the first non-empty link of the chain. */
  function DisplayValue(v: Vocabulary, field: string): (r: string)
    ensures var chain := DisplayChain(v, field);
      (r == "" <==> forall i :: 0 <= i < |chain| ==> chain[i] == "")
      && (r != "" ==> exists i :: 0 <= i < |chain| && chain[i] == r && forall j :: 0 <= j < i ==> chain[j] == "")
  {
    var chain := DisplayChain(v, field);
    if FieldOf(v, field) != "" then assert chain[0] == FieldOf(v, field); FieldOf(v, field)
    else if v.kanji != "" then assert chain[1] == v.kanji; v.kanji
    else if v.romaji != "" then assert chain[2] == v.romaji; v.romaji
    else if v.furigana != "" then assert chain[3] == v.furigana; v.furigana
    else if v.meaning != "" then assert chain[4] == v.meaning; v.meaning
    else ""
  }

  /** A row with empty furigana but with kanji shows its kanji when furigana is asked for. */
  lemma FuriganaFallsBackToKanji(v: Vocabulary)
    requires v.furigana == "" && v.kanji != ""
    ensures DisplayValue(v, "furigana") == v.kanji
  {
  }

  /** A row that has at least one display form never shows as the empty string. */
  lemma DisplayValueNonEmpty(v: Vocabulary, field: string)
    requires v.kanji != "" || v.furigana != "" || v.romaji != "" || v.meaning != ""
    ensures DisplayValue(v, field) != ""
  {
    var chain := DisplayChain(v, field);
    assert chain[1] == v.kanji && chain[2] == v.romaji && chain[3] == v.furigana && chain[4] == v.meaning;
  }

  // ---- the `chosen` object ----------------------------------------------------

  /** One own property of `chosen`: a slot name and the row resolved for it. */
  datatype Entry = Entry(name: string, row: Vocabulary)

  function Names(entries: seq<Entry>): seq<string>
  {
    seq(|entries|, i requires 0 <= i < |entries| => entries[i].name)
  }

  lemma NamesCons(entries: seq<Entry>)
    requires entries != []
    ensures Names(entries) == [entries[0].name] + Names(entries[1..])
  {
    var a := Names(entries);
    var b := [entries[0].name] + Names(entries[1..]);
    forall i | 0 <= i < |a| ensures a[i] == b[i] {
      if i > 0 {
        assert entries[1..][i - 1] == entries[i];
      }
    }
  }

  predicate DistinctNames(entries: seq<Entry>) {
    forall i, j :: 0 <= i < j < |entries| ==> entries[i].name != entries[j].name
  }

  /** `chosen[name] = row` on a plain object: an existing property keeps its place
      and takes the new row, a new property goes last. */
  function Assign(entries: seq<Entry>, name: string, row: Vocabulary): (r: seq<Entry>)
    ensures Names(r) == if name in Names(entries) then Names(entries) else Names(entries) + [name]
    ensures |r| == if name in Names(entries) then |entries| else |entries| + 1
    ensures DistinctNames(entries) ==> DistinctNames(r)
    ensures DistinctNames(entries) ==>
      forall i :: 0 <= i < |r| ==> if r[i].name == name then r[i].row == row else i < |entries| && r[i] == entries[i]
  {
    if entries == [] then [Entry(name, row)]
    else if entries[0].name == name then
      var r := [Entry(name, row)] + entries[1..];
      NamesCons(entries);
      assert r[1..] == entries[1..];
      NamesCons(r);
      r
    else
      var rest := Assign(entries[1..], name, row);
      var r := [entries[0]] + rest;
      NamesCons(entries);
      assert r[1..] == rest;
      NamesCons(r);
      assert name in Names(entries) <==> name in Names(entries[1..]);
      if DistinctNames(entries) then
        DistinctTail(entries);
        DistinctCons(entries[0], rest);
        r
      else
        r
  }

  lemma DistinctTail(entries: seq<Entry>)
    requires entries != [] && DistinctNames(entries)
    ensures DistinctNames(entries[1..]) && entries[0].name !in Names(entries[1..])
  {
    var tail := entries[1..];
    forall i, j | 0 <= i < j < |tail| ensures tail[i].name != tail[j].name {
      assert tail[i] == entries[i + 1] && tail[j] == entries[j + 1];
    }
    forall j | 0 <= j < |tail| ensures Names(tail)[j] != entries[0].name {
      assert tail[j] == entries[j + 1];
    }
  }

  lemma DistinctCons(e: Entry, rest: seq<Entry>)
    requires DistinctNames(rest) && e.name !in Names(rest)
    ensures DistinctNames([e] + rest)
  {
    var r := [e] + rest;
    forall i, j | 0 <= i < j < |r| ensures r[i].name != r[j].name {
      assert r[j] == rest[j - 1];
      if i > 0 {
        assert r[i] == rest[i - 1];
      } else {
        assert Names(rest)[j - 1] == r[j].name;
      }
    }
  }

  // ---- placeholder substitution -----------------------------------------------

  function Placeholder(name: string): (p: string)
    ensures |p| >= 2 && p[0] == '{' && p[|p| - 1] == '}'
  {
    "{" + name + "}"
  }

  predicate StartsWith(s: string, p: string) {
    |p| <= |s| && s[..|p|] == p
  }

  /** `p` occurs somewhere in `s`. */
  predicate Occurs(p: string, s: string)
    decreases |s|
  {
    StartsWith(s, p) || (s != [] && Occurs(p, s[1..]))
  }

  /** `s.replace(/p/g, v)` for a literal pattern: scan left to right, replace every
      non-overlapping occurrence, never rescan what was inserted. */
  function ReplaceAll(s: string, p: string, v: string): string
    requires p != []
    decreases |s|
  {
    if s == [] then []
    else if StartsWith(s, p) then v + ReplaceAll(s[|p|..], p, v)
    else [s[0]] + ReplaceAll(s[1..], p, v)
  }

  /** Where the pattern does not occur, replacing it changes nothing. */
  lemma {:induction false} ReplaceAllAbsent(s: string, p: string, v: string)
    requires p != [] && !Occurs(p, s)
    ensures ReplaceAll(s, p, v) == s
    decreases |s|
  {
    if s != [] {
      ReplaceAllAbsent(s[1..], p, v);
    }
  }

  /** Replacing a pattern by itself changes nothing. */
  lemma {:induction false} ReplaceAllBySelf(s: string, p: string)
    requires p != []
    ensures ReplaceAll(s, p, p) == s
    decreases |s|
  {
    if s != [] {
      if StartsWith(s, p) {
        ReplaceAllBySelf(s[|p|..], p);
        assert s == s[..|p|] + s[|p|..];
      } else {
        ReplaceAllBySelf(s[1..], p);
      }
    }
  }

  predicate BraceFree(w: string) {
    forall i :: 0 <= i < |w| ==> w[i] != '{' && w[i] != '}'
  }

  /** Reading `t` from its start, a '}' comes before any '{' (or there is no brace). */
  predicate CloseBeforeOpen(t: string)
    decreases |t|
  {
    t == [] || t[0] == '}' || (t[0] != '{' && CloseBeforeOpen(t[1..]))
  }

  /** Braces are not nested: after every '{' a '}' comes before the next '{'. */
  predicate Unnested(s: string)
    decreases |s|
  {
    s == [] || ((s[0] == '{' ==> CloseBeforeOpen(s[1..])) && Unnested(s[1..]))
  }

  lemma {:induction false} UnnestedSuffix(s: string, k: nat)
    requires Unnested(s) && k <= |s|
    ensures Unnested(s[k..])
    decreases k
  {
    if k > 0 {
      UnnestedSuffix(s[1..], k - 1);
      assert s[1..][k - 1..] == s[k..];
    }
  }

  lemma {:induction false} UnnestedBraceFreePrefix(w: string, t: string)
    requires BraceFree(w) && Unnested(t)
    ensures Unnested(w + t)
    decreases |w|
  {
    if w == [] {
      assert w + t == t;
    } else {
      assert BraceFree(w[1..]);
      UnnestedBraceFreePrefix(w[1..], t);
      assert (w + t)[1..] == w[1..] + t;
    }
  }

  /** A placeholder cannot start inside brace-free text. */
  lemma {:induction false} OccursPastBraceFree(q: string, w: string, t: string)
    requires q != [] && q[0] == '{' && BraceFree(w)
    requires Occurs(q, w + t)
    ensures Occurs(q, t)
    decreases |w|
  {
    if w == [] {
      assert w + t == t;
    } else {
      assert (w + t)[0] == w[0];
      assert (w + t)[1..] == w[1..] + t;
      assert BraceFree(w[1..]);
      OccursPastBraceFree(q, w[1..], t);
    }
  }

  lemma {:induction false} CloseBeforeOpenPreserved(t: string, p: string, v: string)
    requires p != [] && p[0] == '{' && BraceFree(v) && CloseBeforeOpen(t)
    ensures CloseBeforeOpen(ReplaceAll(t, p, v))
    decreases |t|
  {
    if t != [] {
      assert !StartsWith(t, p) by { if |p| <= |t| { assert t[..|p|][0] == t[0]; } }
      if t[0] != '}' {
        CloseBeforeOpenPreserved(t[1..], p, v);
      }
    }
  }

  /** What follows a '{' that was not replaced was not changed up to its '}':
      if the replaced text continues with brace-free `w` and then '}', so did the
      original. */
  lemma {:induction false} ClosingPrefixKept(t: string, p: string, v: string, w: string)
    requires p != [] && p[0] == '{' && BraceFree(v) && BraceFree(w) && CloseBeforeOpen(t)
    requires StartsWith(ReplaceAll(t, p, v), w + "}")
    ensures StartsWith(t, w + "}")
    decreases |t|
  {
    var r := ReplaceAll(t, p, v);
    assert t != [];
    assert !StartsWith(t, p) by { if |p| <= |t| { assert t[..|p|][0] == t[0]; } }
    assert r == [t[0]] + ReplaceAll(t[1..], p, v);
    assert r[0] == (w + "}")[0];
    if w == [] {
      assert t[0] == '}';
    } else {
      assert t[0] == w[0];
      assert BraceFree(w[1..]);
      assert (w + "}")[1..] == w[1..] + "}";
      assert StartsWith(ReplaceAll(t[1..], p, v), w[1..] + "}") by {
        assert r[1..][..|w[1..] + "}"|] == r[..|w + "}"|][1..];
      }
      ClosingPrefixKept(t[1..], p, v, w[1..]);
      assert t[..|w + "}"|] == [t[0]] + t[1..][..|w[1..] + "}"|];
    }
  }

  /** On an unnested string, replacing placeholder `p` by brace-free text removes
      every occurrence of `p` and creates no occurrence of any other placeholder. */
  lemma {:induction false} NoPlaceholderCreated(s: string, p: string, v: string, name: string)
    requires p != [] && p[0] == '{' && BraceFree(v) && BraceFree(name) && Unnested(s)
    requires Occurs(Placeholder(name), ReplaceAll(s, p, v))
    ensures Occurs(Placeholder(name), s) && Placeholder(name) != p
    decreases |s|
  {
    var q := Placeholder(name);
    var r := ReplaceAll(s, p, v);
    assert s != [];
    if StartsWith(s, p) {
      var rest := s[|p|..];
      UnnestedSuffix(s, |p|);
      OccursPastBraceFree(q, v, ReplaceAll(rest, p, v));
      NoPlaceholderCreated(rest, p, v, name);
      OccursOfSuffix(q, s, |p|);
    } else {
      var tail := ReplaceAll(s[1..], p, v);
      assert r == [s[0]] + tail;
      if StartsWith(r, q) {
        assert s[0] == '{';
        assert name + "}" == q[1..];
        assert StartsWith(tail, name + "}") by {
          assert tail[..|name + "}"|] == r[..|q|][1..];
        }
        ClosingPrefixKept(s[1..], p, v, name);
        assert s[..|q|] == [s[0]] + s[1..][..|name + "}"|];
        assert StartsWith(s, q);
      } else {
        assert r[1..] == tail;
        NoPlaceholderCreated(s[1..], p, v, name);
      }
    }
  }

  lemma {:induction false} OccursOfSuffix(q: string, s: string, k: nat)
    requires k <= |s| && Occurs(q, s[k..])
    ensures Occurs(q, s)
    decreases k
  {
    if k > 0 {
      assert s[1..][k - 1..] == s[k..];
      OccursOfSuffix(q, s[1..], k - 1);
    }
  }

  lemma {:induction false} UnnestedPreserved(s: string, p: string, v: string)
    requires p != [] && p[0] == '{' && BraceFree(v) && Unnested(s)
    ensures Unnested(ReplaceAll(s, p, v))
    decreases |s|
  {
    if s != [] {
      if StartsWith(s, p) {
        UnnestedSuffix(s, |p|);
        UnnestedPreserved(s[|p|..], p, v);
        UnnestedBraceFreePrefix(v, ReplaceAll(s[|p|..], p, v));
      } else {
        UnnestedPreserved(s[1..], p, v);
        if s[0] == '{' {
          CloseBeforeOpenPreserved(s[1..], p, v);
        }
        var r := ReplaceAll(s, p, v);
        assert r[1..] == ReplaceAll(s[1..], p, v);
      }
    }
  }

  /** The sentence after every entry of `chosen` has been substituted in order. */
  function Substituted(pattern: string, entries: seq<Entry>, field: string): string
    decreases |entries|
  {
    if entries == [] then pattern
    else
      var last := entries[|entries| - 1];
      ReplaceAll(Substituted(pattern, entries[..|entries| - 1], field), Placeholder(last.name), DisplayValue(last.row, field))
  }

  /** Names and display values free of braces, and a pattern whose braces do not
      nest: then no placeholder of a substituted name is left in the sentence. */
  predicate CleanSubstitution(pattern: string, entries: seq<Entry>, field: string) {
    && Unnested(pattern)
    && forall i :: 0 <= i < |entries| ==> BraceFree(entries[i].name) && BraceFree(DisplayValue(entries[i].row, field))
  }

  /** One replacement step neither brings back a placeholder that was gone nor
      leaves the one it replaces. */
  lemma NotReintroduced(s: string, p: string, v: string, name: string)
    requires p != [] && p[0] == '{' && BraceFree(v) && BraceFree(name) && Unnested(s)
    requires !Occurs(Placeholder(name), s) || Placeholder(name) == p
    ensures !Occurs(Placeholder(name), ReplaceAll(s, p, v))
  {
    if Occurs(Placeholder(name), ReplaceAll(s, p, v)) {
      NoPlaceholderCreated(s, p, v, name);
    }
  }

  lemma {:induction false} SubstitutedLeavesNoPlaceholder(pattern: string, entries: seq<Entry>, field: string)
    requires CleanSubstitution(pattern, entries, field)
    ensures Unnested(Substituted(pattern, entries, field))
    ensures forall i :: 0 <= i < |entries| ==> !Occurs(Placeholder(entries[i].name), Substituted(pattern, entries, field))
    decreases |entries|
  {
    if entries != [] {
      var n := |entries| - 1;
      var init := entries[..n];
      var last := entries[n];
      assert CleanSubstitution(pattern, init, field) by {
        forall i | 0 <= i < |init| ensures BraceFree(init[i].name) && BraceFree(DisplayValue(init[i].row, field)) {
          assert init[i] == entries[i];
        }
      }
      SubstitutedLeavesNoPlaceholder(pattern, init, field);
      ReplaceStep(Substituted(pattern, init, field), init, last, field);
      InitLast(entries);
    }
  }

  lemma InitLast<T>(s: seq<T>)
    requires s != []
    ensures s[..|s| - 1] + [s[|s| - 1]] == s
  {
  }

  /** Replacing the placeholder of `last` in a text free of the placeholders of `init`
      leaves a text free of the placeholders of both. */
  lemma ReplaceStep(prev: string, init: seq<Entry>, last: Entry, field: string)
    requires Unnested(prev) && BraceFree(last.name) && BraceFree(DisplayValue(last.row, field))
    requires forall i :: 0 <= i < |init| ==> BraceFree(init[i].name) && !Occurs(Placeholder(init[i].name), prev)
    ensures Unnested(ReplaceAll(prev, Placeholder(last.name), DisplayValue(last.row, field)))
    ensures forall i :: 0 <= i < |init| + 1 ==>
      !Occurs(Placeholder((init + [last])[i].name), ReplaceAll(prev, Placeholder(last.name), DisplayValue(last.row, field)))
  {
    var p := Placeholder(last.name);
    var v := DisplayValue(last.row, field);
    UnnestedPreserved(prev, p, v);
    var all := init + [last];
    forall i | 0 <= i < |all| ensures !Occurs(Placeholder(all[i].name), ReplaceAll(prev, p, v)) {
      if i < |init| {
        assert all[i] == init[i];
      }
      NotReintroduced(prev, p, v, all[i].name);
    }
  }

  /** The substitution loop of the server: `sentence` starts as the pattern and is
      reassigned once per entry of `chosen`, in order. Under `CleanSubstitution`
      no placeholder of a resolved slot survives. */
  method Substitute(pattern: string, entries: seq<Entry>, field: string) returns (sentence: string)
    ensures sentence == Substituted(pattern, entries, field)
    ensures CleanSubstitution(pattern, entries, field) ==>
      forall i :: 0 <= i < |entries| ==> !Occurs(Placeholder(entries[i].name), sentence)
  {
    sentence := pattern;
    var i := 0;
    while i < |entries|
      invariant 0 <= i <= |entries|
      invariant sentence == Substituted(pattern, entries[..i], field)
    {
      var e := entries[i];
      var value := DisplayValue(e.row, field);
      sentence := ReplaceAll(sentence, Placeholder(e.name), value);
      assert entries[..i + 1][..i] == entries[..i];
      i := i + 1;
    }
    assert entries[..i] == entries;
    if CleanSubstitution(pattern, entries, field) {
      SubstitutedLeavesNoPlaceholder(pattern, entries, field);
    }
  }

  /** Why the brace conditions are needed: with nested braces a placeholder can be
      assembled out of the text around a replaced one. */
  lemma NestedBracesRebuildPlaceholder()
    ensures ReplaceAll("{a{aXb}b}", Placeholder("aXb"), "X") == Placeholder("aXb")
  {
    var p := Placeholder("aXb");
    assert !StartsWith("{a{aXb}b}", p);
    assert "{a{aXb}b}"[1..] == "a{aXb}b}";
    assert !StartsWith("a{aXb}b}", p);
    assert "a{aXb}b}"[1..] == "{aXb}b}";
    assert StartsWith("{aXb}b}", p);
    assert "{aXb}b}"[|p|..] == "b}";
    assert !StartsWith("b}", p);
    assert "b}"[1..] == "}";
    assert !StartsWith("}", p);
    assert "}"[1..] == "";
  }

  // ---- tokens -----------------------------------------------------------------

  /** Length of the leading run of non-whitespace characters. */
  function WordLength(s: string): (n: nat)
    ensures n <= |s| && NoSpace(s[..n])
    ensures n < |s| ==> IsSpace(s[n])
  {
    if s == [] || IsSpace(s[0]) then 0
    else
      var n := 1 + WordLength(s[1..]);
      assert forall i :: 1 <= i < n ==> s[..n][i] == s[1..][..n - 1][i - 1];
      n
  }

  /** `sentence.split(/\s+/).filter(Boolean)`: the maximal runs of non-whitespace
      characters, in order. */
  function Tokens(s: string): (tokens: seq<string>)
    ensures forall i :: 0 <= i < |tokens| ==> tokens[i] != [] && NoSpace(tokens[i])
    decreases |s|
  {
    if s == [] then []
    else if IsSpace(s[0]) then Tokens(s[1..])
    else
      var n := WordLength(s);
      [s[..n]] + Tokens(s[n..])
  }

  function Concat(pieces: seq<string>): string {
    if pieces == [] then [] else pieces[0] + Concat(pieces[1..])
  }

  /** The characters of `s` that are not whitespace, in order. */
  function NonSpace(s: string): string {
    if s == [] then []
    else if IsSpace(s[0]) then NonSpace(s[1..])
    else [s[0]] + NonSpace(s[1..])
  }

  lemma {:induction false} NonSpaceOfWord(w: string, t: string)
    requires NoSpace(w)
    ensures NonSpace(w + t) == w + NonSpace(t)
    decreases |w|
  {
    if w == [] {
      assert w + t == t;
    } else {
      assert (w + t)[1..] == w[1..] + t;
      NonSpaceOfWord(w[1..], t);
    }
  }

  /** Tokenising loses only whitespace: the tokens, put together, are the
      non-whitespace characters of the sentence. */
  lemma {:induction false} TokensKeepNonSpace(s: string)
    ensures Concat(Tokens(s)) == NonSpace(s)
    decreases |s|
  {
    if s != [] {
      if IsSpace(s[0]) {
        TokensKeepNonSpace(s[1..]);
      } else {
        var n := WordLength(s);
        TokensKeepNonSpace(s[n..]);
        assert s == s[..n] + s[n..];
        NonSpaceOfWord(s[..n], s[n..]);
        assert Tokens(s)[1..] == Tokens(s[n..]);
      }
    }
  }

  lemma {:induction false} TokensOfLeadingSpace(s: string)
    ensures Tokens(" " + s) == Tokens(s)
  {
    assert (" " + s)[1..] == s;
  }

  lemma WordLengthOfWord(w: string, t: string)
    requires w != [] && NoSpace(w) && (t == [] || IsSpace(t[0]))
    ensures WordLength(w + t) == |w|
    decreases |w|
  {
    assert (w + t)[1..] == w[1..] + t;
    if |w| > 1 {
      WordLengthOfWord(w[1..], t);
    } else {
      assert w[1..] + t == t;
    }
  }

  /** Tokenising words joined by single spaces gives the words back. */
  lemma {:induction false} TokensOfJoin(words: seq<string>)
    requires forall i :: 0 <= i < |words| ==> words[i] != [] && NoSpace(words[i])
    ensures Tokens(JoinWith(words, " ")) == words
    decreases |words|
  {
    if words != [] {
      var w := words[0];
      var s := JoinWith(words, " ");
      if |words| == 1 {
        WordLengthOfWord(w, []);
        assert w + [] == w;
        assert s[|w|..] == [];
      } else {
        var rest := JoinWith(words[1..], " ");
        assert s == w + (" " + rest);
        WordLengthOfWord(w, " " + rest);
        assert s[..|w|] == w && s[|w|..] == " " + rest;
        assert s[0] == w[0];
        TokensOfLeadingSpace(rest);
        TokensOfJoin(words[1..]);
        assert Tokens(s) == [w] + Tokens(" " + rest);
      }
    }
  }

  /** `gaps[0] + words[0] + gaps[1] + … + words[n - 1] + gaps[n]`: words laid out
      with a gap before, between and after them. */
  function Spaced(words: seq<string>, gaps: seq<string>): string
    requires |gaps| == |words| + 1
    decreases |words|
  {
    if words == [] then gaps[0] else gaps[0] + words[0] + Spaced(words[1..], gaps[1..])
  }

  /** The gaps are whitespace, those between two words are non-empty, and the
      words are non-empty runs without whitespace. */
  predicate WellSpaced(words: seq<string>, gaps: seq<string>) {
    && |gaps| == |words| + 1
    && (forall i :: 0 <= i < |words| ==> words[i] != [] && NoSpace(words[i]))
    && (forall i :: 0 <= i < |gaps| ==> AllSpace(gaps[i]))
    && (forall i :: 0 < i < |words| ==> gaps[i] != [])
  }

  lemma {:induction false} TokensOfSpacePrefix(g: string, t: string)
    requires AllSpace(g)
    ensures Tokens(g + t) == Tokens(t)
    decreases |g|
  {
    if g != [] {
      assert (g + t)[0] == g[0];
      assert (g + t)[1..] == g[1..] + t;
      TokensOfSpacePrefix(g[1..], t);
    } else {
      assert g + t == t;
    }
  }

  lemma TokensOfWord(w: string, t: string)
    requires w != [] && NoSpace(w) && (t == [] || IsSpace(t[0]))
    ensures Tokens(w + t) == [w] + Tokens(t)
  {
    WordLengthOfWord(w, t);
    assert (w + t)[0] == w[0];
    assert (w + t)[..|w|] == w && (w + t)[|w|..] == t;
  }

  /** Words laid out with any whitespace gaps, of any length and of any of the
      whitespace characters, tokenise back to the words. */
  lemma {:induction false} TokensOfSpaced(words: seq<string>, gaps: seq<string>)
    requires WellSpaced(words, gaps)
    ensures Tokens(Spaced(words, gaps)) == words
    decreases |words|
  {
    if words == [] {
      TokensOfSpacePrefix(gaps[0], []);
      assert gaps[0] + [] == gaps[0];
    } else {
      var rest := Spaced(words[1..], gaps[1..]);
      assert WellSpaced(words[1..], gaps[1..]) by {
        assert forall i :: 0 <= i < |words| - 1 ==> words[1..][i] == words[i + 1];
        assert forall i :: 0 <= i < |gaps| - 1 ==> gaps[1..][i] == gaps[i + 1];
      }
      TokensOfSpaced(words[1..], gaps[1..]);
      if |words| > 1 {
        assert gaps[1] != [];
        assert rest == gaps[1] + words[1] + Spaced(words[2..], gaps[2..]);
        assert rest[0] == gaps[1][0];
      } else {
        assert rest == gaps[1];
      }
      TokensOfWord(words[0], rest);
      assert Spaced(words, gaps) == gaps[0] + (words[0] + rest);
      TokensOfSpacePrefix(gaps[0], words[0] + rest);
    }
  }

  /** The whitespace around and between the tokens of `s`. */
  function GapsOf(s: string): (gaps: seq<string>)
    ensures |gaps| == |Tokens(s)| + 1
    ensures s != [] && IsSpace(s[0]) ==> gaps[0] != []
    decreases |s|
  {
    if s == [] then [[]]
    else if IsSpace(s[0]) then
      var g := GapsOf(s[1..]);
      [[s[0]] + g[0]] + g[1..]
    else
      [[]] + GapsOf(s[WordLength(s)..])
  }

  lemma SpacedConsGap(c: char, words: seq<string>, gaps: seq<string>)
    requires |gaps| == |words| + 1
    ensures Spaced(words, [[c] + gaps[0]] + gaps[1..]) == [c] + Spaced(words, gaps)
  {
    var gaps' := [[c] + gaps[0]] + gaps[1..];
    assert gaps'[1..] == gaps[1..];
  }

  /** Every sentence is its tokens laid out with whitespace gaps: the tokens are
      exactly the pieces between runs of whitespace, in order. */
  lemma {:induction false} SentenceIsSpacedTokens(s: string)
    ensures WellSpaced(Tokens(s), GapsOf(s)) && Spaced(Tokens(s), GapsOf(s)) == s
    decreases |s|
  {
    if s == [] {
    } else if IsSpace(s[0]) {
      var g := GapsOf(s[1..]);
      SentenceIsSpacedTokens(s[1..]);
      SpacedConsGap(s[0], Tokens(s[1..]), g);
      assert [s[0]] + s[1..] == s;
      SpaceGapsStep(s[0], Tokens(s[1..]), g);
    } else {
      var n := WordLength(s);
      var t := s[n..];
      SentenceIsSpacedTokens(t);
      WordGapsStep(s[..n], Tokens(t), GapsOf(t), t);
      assert s[..n] + t == s;
    }
  }

  lemma SpaceGapsStep(c: char, words: seq<string>, gaps: seq<string>)
    requires IsSpace(c) && WellSpaced(words, gaps)
    ensures WellSpaced(words, [[c] + gaps[0]] + gaps[1..])
  {
    var gaps' := [[c] + gaps[0]] + gaps[1..];
    forall i | 0 <= i < |gaps'| ensures AllSpace(gaps'[i]) {
      if i > 0 { assert gaps'[i] == gaps[i]; }
    }
    forall i | 0 < i < |words| ensures gaps'[i] != [] {
      assert gaps'[i] == gaps[i];
    }
  }

  lemma WordGapsStep(w: string, words: seq<string>, gaps: seq<string>, t: string)
    requires w != [] && NoSpace(w) && WellSpaced(words, gaps) && Spaced(words, gaps) == t
    requires t == [] || IsSpace(t[0])
    ensures WellSpaced([w] + words, [[]] + gaps)
    ensures Spaced([w] + words, [[]] + gaps) == w + t
  {
    var words' := [w] + words;
    var gaps' := [[]] + gaps;
    assert words'[1..] == words && gaps'[1..] == gaps;
    forall i | 0 <= i < |words'| ensures words'[i] != [] && NoSpace(words'[i]) {
      if i > 0 { assert words'[i] == words[i - 1]; }
    }
    forall i | 0 <= i < |gaps'| ensures AllSpace(gaps'[i]) {
      if i > 0 { assert gaps'[i] == gaps[i - 1]; }
    }
    forall i | 0 < i < |words'| ensures gaps'[i] != [] {
      assert gaps'[i] == gaps[i - 1];
      if i == 1 {
        assert t != [];
      }
    }
  }
}
