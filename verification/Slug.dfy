/** Names kept to lower-case letters, digits and single inner hyphens, whatever they were made from. */
module Slug {
  import opened Wrappers

  predicate Alphanumeric(c: char) {
    'a' <= c <= 'z' || 'A' <= c <= 'Z' || '0' <= c <= '9'
  }

  function Lower(c: char): (l: char)
    ensures Alphanumeric(c) ==> Alphanumeric(l) && !('A' <= l <= 'Z')
  {
    if 'A' <= c <= 'Z' then (c as int + 32) as char else c
  }

  function LowerAll(s: string): (l: string)
    ensures |l| == |s| && forall i | 0 <= i < |s| :: l[i] == Lower(s[i])
  {
    seq(|s|, i requires 0 <= i < |s| => Lower(s[i]))
  }

  // ---- What the name means: the alphanumeric runs, joined

  /** The length of the longest alphanumeric prefix. */
  function Lead(s: string): (n: nat)
    ensures n <= |s| && (forall i | 0 <= i < n :: Alphanumeric(s[i]))
    ensures n < |s| ==> !Alphanumeric(s[n])
  {
    if s != "" && Alphanumeric(s[0]) then 1 + Lead(s[1..]) else 0
  }

  /** The maximal alphanumeric runs of `s` from the left, in lower case. */
  function Runs(s: string): seq<string>
    decreases |s|
  {
    if s == "" then []
    else if Lead(s) == 0 then Runs(s[1..])
    else [LowerAll(s[..Lead(s)])] + Runs(s[Lead(s)..])
  }

  function Join(words: seq<string>): string {
    if words == [] then ""
    else if |words| == 1 then words[0]
    else words[0] + "-" + Join(words[1..])
  }

  function SlugOf(generator: Option<string>): string {
    if generator.None? || Runs(generator.value) == [] then "default" else Join(Runs(generator.value))
  }

  predicate EndsInWord(s: string) {
    s != "" && Alphanumeric(s[|s| - 1])
  }

  /** What one more character does to the runs. */
  function Extended(words: seq<string>, inWord: bool, c: char): seq<string>
    requires inWord ==> words != []
  {
    if !Alphanumeric(c) then words
    else if inWord then words[|words| - 1 := words[|words| - 1] + [Lower(c)]]
    else words + [[Lower(c)]]
  }

  ghost predicate AllWord(s: string) {
    forall i | 0 <= i < |s| :: Alphanumeric(s[i])
  }

  lemma {:induction false} LeadOf(head: string, rest: string)
    requires AllWord(head) && (rest == "" || !Alphanumeric(rest[0]))
    ensures Lead(head + rest) == |head|
  {
    if head == "" {
      assert head + rest == rest;
    } else {
      assert (head + rest)[1..] == head[1..] + rest;
      LeadOf(head[1..], rest);
    }
  }

  lemma RunsFrom(head: string, rest: string)
    requires AllWord(head) && head != "" && (rest == "" || !Alphanumeric(rest[0]))
    ensures Runs(head + rest) == [LowerAll(head)] + Runs(rest)
  {
    LeadOf(head, rest);
    assert (head + rest)[..|head|] == head && (head + rest)[|head|..] == rest;
  }

  lemma RunsSkip(c: char, rest: string)
    requires !Alphanumeric(c)
    ensures Runs([c] + rest) == Runs(rest)
  {
    assert ([c] + rest)[1..] == rest;
  }

  lemma RunsAppendToWord(s: string, c: char)
    requires s != "" && AllWord(s)
    ensures Runs(s) == [LowerAll(s)]
    ensures Runs(s + [c]) == [LowerAll(s) + if Alphanumeric(c) then [Lower(c)] else ""]
  {
    assert s + "" == s && (s + [c]) + "" == s + [c];
    RunsFrom(s, "");
    if Alphanumeric(c) {
      RunsFrom(s + [c], "");
      assert LowerAll(s + [c]) == LowerAll(s) + [Lower(c)];
    } else {
      RunsFrom(s, [c]);
      RunsSkip(c, "");
      assert [c] + "" == [c] && LowerAll(s) + "" == LowerAll(s);
    }
  }

  lemma RunsOfOne(c: char)
    ensures Runs([c]) == if Alphanumeric(c) then [[Lower(c)]] else []
  {
    assert [c] + "" == [c];
    if Alphanumeric(c) {
      RunsFrom([c], "");
      assert LowerAll([c]) == [Lower(c)];
    } else {
      RunsSkip(c, "");
    }
  }

  lemma ExtendedLater(head: seq<string>, words: seq<string>, inWord: bool, c: char)
    requires inWord ==> words != []
    ensures Extended(head + words, inWord, c) == head + Extended(words, inWord, c)
  {
  }

  lemma RunsAppendHead(head: string, rest: string, c: char)
    requires head != "" && AllWord(head) && rest != "" && !Alphanumeric(rest[0])
    requires EndsInWord(rest) ==> Runs(rest) != []
    requires Runs(rest + [c]) == Extended(Runs(rest), EndsInWord(rest), c)
    ensures Runs(head + rest) != [] && EndsInWord(head + rest) == EndsInWord(rest)
    ensures Runs(head + rest + [c]) == Extended(Runs(head + rest), EndsInWord(head + rest), c)
  {
    RunsFrom(head, rest);
    RunsFrom(head, rest + [c]);
    Regrouped(head, rest, c);
    ExtendedLater([LowerAll(head)], Runs(rest), EndsInWord(rest), c);
  }

  lemma Regrouped(head: string, rest: string, c: char)
    requires rest != ""
    ensures head + rest + [c] == head + (rest + [c]) && EndsInWord(head + rest) == EndsInWord(rest)
  {
  }

  lemma RunsAppendSkip(first: char, rest: string, c: char)
    requires !Alphanumeric(first)
    requires EndsInWord(rest) ==> Runs(rest) != []
    requires Runs(rest + [c]) == Extended(Runs(rest), EndsInWord(rest), c)
    ensures EndsInWord([first] + rest) == EndsInWord(rest) && Runs([first] + rest) == Runs(rest)
    ensures Runs([first] + rest + [c]) == Extended(Runs(rest), EndsInWord(rest), c)
  {
    RunsSkip(first, rest);
    RunsSkip(first, rest + [c]);
    assert [first] + rest + [c] == [first] + (rest + [c]);
  }

  lemma FirstRun(s: string) returns (head: string, rest: string)
    ensures s == head + rest && AllWord(head) && (rest == "" || !Alphanumeric(rest[0]))
  {
    head, rest := s[..Lead(s)], s[Lead(s)..];
  }

  lemma {:induction false} RunsAppend(s: string, c: char)
    ensures EndsInWord(s) ==> Runs(s) != []
    ensures Runs(s + [c]) == Extended(Runs(s), EndsInWord(s), c)
    decreases |s|
  {
    var head, rest := FirstRun(s);
    if s == "" {
      assert s + [c] == [c];
      RunsOfOne(c);
    } else if rest == "" {
      assert s == head;
      RunsAppendToWord(s, c);
    } else if head == "" {
      RunsAppend(rest[1..], c);
      RunsAppendSkip(rest[0], rest[1..], c);
      assert s == [rest[0]] + rest[1..];
    } else {
      RunsAppend(rest, c);
      RunsAppendHead(head, rest, c);
    }
  }

  // ---- The loop and the trimming

  function TrimStart(s: string): string {
    if s != "" && s[0] == '-' then TrimStart(s[1..]) else s
  }

  function TrimEnd(s: string): string {
    if HyphenLast(s) then TrimEnd(s[..|s| - 1]) else s
  }

  predicate HyphenLast(s: string) {
    s != "" && s[|s| - 1] == '-'
  }

  /** The text as the loop has it: the joined runs, with a hyphen at each end that is not in a run. */
  function Padded(s: string): string {
    Pad(s != "" && !Alphanumeric(s[0]), Join(Runs(s)), Runs(s) != [] && !EndsInWord(s))
  }

  function Pad(first: bool, joined: string, last: bool): string {
    (if first then "-" else "") + joined + (if last then "-" else "")
  }

  lemma {:induction false} JoinAppend(words: seq<string>, w: string)
    requires words != []
    ensures Join(words + [w]) == Join(words) + "-" + w
  {
    if |words| > 1 {
      assert (words + [w])[1..] == words[1..] + [w];
      JoinAppend(words[1..], w);
    }
  }

  lemma {:induction false} JoinExtend(words: seq<string>, c: char)
    requires words != []
    ensures Join(words[|words| - 1 := words[|words| - 1] + [c]]) == Join(words) + [c]
  {
    var t := words[|words| - 1 := words[|words| - 1] + [c]];
    if |words| > 1 {
      assert t[1..] == words[1..][|words[1..]| - 1 := words[1..][|words[1..]| - 1] + [c]];
      JoinExtend(words[1..], c);
    }
  }

  ghost predicate Word(w: string) {
    w != "" && forall i | 0 <= i < |w| :: Alphanumeric(w[i]) && Lower(w[i]) == w[i]
  }

  lemma {:induction false} RunsAreWords(s: string)
    ensures forall w <- Runs(s) :: Word(w)
    decreases |s|
  {
    if s != "" {
      RunsAreWords(s[if Lead(s) == 0 then 1 else Lead(s)..]);
    }
  }

  /** A name that needs no change: lower-case letters and digits, single hyphens inside. */
  ghost predicate Clean(s: string) {
    && s != ""
    && (forall i | 0 <= i < |s| :: s[i] == '-' || (Alphanumeric(s[i]) && Lower(s[i]) == s[i]))
    && s[0] != '-' && s[|s| - 1] != '-'
    && forall i | 0 < i < |s| :: !(s[i - 1] == '-' && s[i] == '-')
  }

  lemma HyphenIsClean(w: string, rest: string)
    requires Word(w) && Clean(rest)
    ensures Clean(w + "-" + rest)
  {
    var all := w + "-" + rest;
    forall i | 0 <= i < |all|
      ensures all[i] == if i < |w| then w[i] else if i == |w| then '-' else rest[i - |w| - 1]
    {
    }
    forall i | 0 < i < |all|
      ensures !(all[i - 1] == '-' && all[i] == '-')
    {
      if i > |w| + 1 {
        assert all[i - 1] == rest[i - |w| - 2];
      }
    }
  }

  lemma {:induction false} JoinIsClean(words: seq<string>)
    requires words != [] && forall w <- words :: Word(w)
    ensures Clean(Join(words))
  {
    assert Word(words[0]);
    if |words| > 1 {
      JoinIsClean(words[1..]);
      HyphenIsClean(words[0], Join(words[1..]));
    }
  }

  lemma NoRunNoWord(s: string)
    requires Runs(s) == []
    ensures forall i | 0 <= i < |s| :: !Alphanumeric(s[i])
    decreases |s|
  {
    if s != "" {
      NoRunNoWord(s[1..]);
    }
  }

  lemma JoinExtended(words: seq<string>, inWord: bool, c: char)
    requires Alphanumeric(c) && (inWord ==> words != [])
    ensures Join(Extended(words, inWord, c))
         == Pad(false, Join(words), words != [] && !inWord) + [Lower(c)]
  {
    if words == [] {
      assert Join([[Lower(c)]]) == [Lower(c)];
    } else if inWord {
      JoinExtend(words, Lower(c));
    } else {
      JoinAppend(words, [Lower(c)]);
    }
  }

  lemma PadEnd(first: bool, joined: string, last: bool, c: char)
    ensures Pad(first, Pad(false, joined, last) + [c], false) == Pad(first, joined, last) + [c]
  {
    var front := if first then "-" else "";
    assert front + (Pad(false, joined, last) + [c]) + "" == front + Pad(false, joined, last) + [c];
    assert front + Pad(false, joined, last) == Pad(first, joined, last);
  }

  lemma PaddedWord(s: string, c: char)
    requires Alphanumeric(c)
    ensures Padded(s + [c]) == Padded(s) + [Lower(c)]
  {
    RunsAppend(s, c);
    JoinExtended(Runs(s), EndsInWord(s), c);
    PadEnd(s != "" && !Alphanumeric(s[0]), Join(Runs(s)), Runs(s) != [] && !EndsInWord(s), Lower(c));
    assert Runs(s + [c]) != [] && EndsInWord(s + [c]);
  }

  lemma PaddedOther(s: string, c: char)
    requires !Alphanumeric(c)
    ensures Padded(s + [c]) == if HyphenLast(Padded(s)) then Padded(s) else Padded(s) + "-"
  {
    RunsAppend(s, c);
    assert !EndsInWord(s + [c]);
    if Runs(s) == [] {
      NoRunNoWord(s);
    } else {
      RunsAreWords(s);
      JoinIsClean(Runs(s));
    }
  }

  lemma TrimsHyphens(x: string)
    requires x != "" && x[0] != '-' && x[|x| - 1] != '-'
    ensures TrimStart(x) == TrimEnd(x) == x && TrimEnd(x + "-") == x
    ensures TrimStart("-" + x) == x && TrimStart(x + "-") == x + "-"
    ensures TrimStart("-" + (x + "-")) == x + "-"
  {
    assert ("-" + x)[1..] == x && (x + "-")[..|x|] == x;
    assert ("-" + (x + "-"))[1..] == x + "-";
  }

  lemma PadTrimmed(first: bool, joined: string, last: bool)
    requires joined != "" && joined[0] != '-' && joined[|joined| - 1] != '-'
    ensures TrimEnd(TrimStart(Pad(first, joined, last))) == joined
  {
    TrimsHyphens(joined);
    assert Pad(true, joined, true) == "-" + (joined + "-") && Pad(true, joined, false) == "-" + joined;
    assert Pad(false, joined, true) == joined + "-" && Pad(false, joined, false) == joined;
  }

  lemma Trimmed(s: string)
    ensures TrimEnd(TrimStart(Padded(s))) == Join(Runs(s))
  {
    if Runs(s) == [] {
      assert TrimStart("-") == "";
    } else {
      RunsAreWords(s);
      JoinIsClean(Runs(s));
      PadTrimmed(!Alphanumeric(s[0]), Join(Runs(s)), !EndsInWord(s));
    }
  }

  /** Letters and digits are kept in lower case; anything else becomes a hyphen unless one is
      already last; hyphens at the ends are trimmed. */
  method GeneratorSlug(generator: Option<string>) returns (name: string)
    ensures name == SlugOf(generator)
  {
    if generator.None? {
      return "default";
    }
    var text := generator.value;
    var slug := "";
    for i := 0 to |text|
      invariant slug == Padded(text[..i])
    {
      assert text[..i + 1] == text[..i] + [text[i]];
      if Alphanumeric(text[i]) {
        PaddedWord(text[..i], text[i]);
        slug := slug + [Lower(text[i])];
      } else {
        PaddedOther(text[..i], text[i]);
        if !HyphenLast(slug) {
          slug := slug + "-";
        }
      }
    }
    assert text[..|text|] == text;
    Trimmed(text);
    RunsAreWords(text);
    if Runs(text) != [] {
      JoinIsClean(Runs(text));
    }
    slug := TrimEnd(TrimStart(slug));
    name := if slug == "" then "default" else slug;
  }

  // ---- What the name is good for

  lemma CleanRest(s: string, n: nat)
    requires Clean(s) && n < |s| && s[n] == '-'
    ensures Clean(s[n + 1..])
  {
    var rest := s[n + 1..];
    assert s[|s| - 1] != '-' && !(s[n + 1 - 1] == '-' && s[n + 1] == '-');
    assert forall i | 0 <= i < |rest| :: rest[i] == s[n + 1 + i];
    forall i | 0 < i < |rest|
      ensures !(rest[i - 1] == '-' && rest[i] == '-')
    {
      assert !(s[n + 1 + i - 1] == '-' && s[n + 1 + i] == '-');
    }
  }

  lemma CleanFirst(s: string, n: nat)
    requires Clean(s) && n == Lead(s)
    ensures n > 0 && Word(s[..n]) && (n == |s| ==> LowerAll(s) == s)
    ensures n < |s| ==> s[n] == '-'
  {
  }

  lemma HyphenRuns(w: string, rest: string)
    requires Word(w)
    ensures Runs(w + "-" + rest) == [w] + Runs(rest)
  {
    assert w + "-" + rest == w + ("-" + rest);
    RunsFrom(w, "-" + rest);
    RunsSkip('-', rest);
    assert LowerAll(w) == w;
  }

  lemma {:induction false} CleanIsItsRuns(s: string)
    requires Clean(s)
    ensures Runs(s) != [] && Join(Runs(s)) == s
    decreases |s|
  {
    var n := Lead(s);
    CleanFirst(s, n);
    if n == |s| {
      assert s + "" == s && LowerAll(s) == s;
      RunsFrom(s, "");
    } else {
      var rest := s[n + 1..];
      CleanRest(s, n);
      CleanIsItsRuns(rest);
      assert s == s[..n] + "-" + rest;
      HyphenRuns(s[..n], rest);
      assert ([s[..n]] + Runs(rest))[1..] == Runs(rest);
    }
  }

  /** The name is always one that needs no change, whatever the generator is called. */
  lemma SlugIsClean(generator: Option<string>)
    ensures Clean(SlugOf(generator))
  {
    if generator.Some? && Runs(generator.value) != [] {
      RunsAreWords(generator.value);
      JoinIsClean(Runs(generator.value));
    }
  }

  /** Exactly the clean names are left alone; so naming twice is naming once. */
  lemma LeftAloneIff(s: string)
    ensures SlugOf(Some(s)) == s <==> Clean(s)
    ensures SlugOf(Some(SlugOf(Some(s)))) == SlugOf(Some(s))
  {
    SlugIsClean(Some(s));
    CleanIsItsRuns(SlugOf(Some(s)));
    if Clean(s) {
      CleanIsItsRuns(s);
    }
  }

  // ---- Which characters, and in which order

  const SMALL := "abcdefghijklmnopqrstuvwxyz"
  const CAPITALS := "ABCDEFGHIJKLMNOPQRSTUVWXYZ"
  const DIGITS := "0123456789"

  lemma Alphabet()
    ensures |SMALL| == |CAPITALS| == 26 && |DIGITS| == 10
    ensures forall k | 0 <= k < 26 :: SMALL[k] as int == 'a' as int + k
    ensures forall k | 0 <= k < 26 :: CAPITALS[k] as int == 'A' as int + k
    ensures forall k | 0 <= k < 10 :: DIGITS[k] as int == '0' as int + k
  {
  }

  /** The letters and digits of ASCII are kept, the capitals as their small letters, and nothing else is. */
  lemma CharactersKept(c: char)
    ensures Alphanumeric(c) <==> c in SMALL || c in CAPITALS || c in DIGITS
    ensures forall k | 0 <= k < 26 :: Lower(CAPITALS[k]) == SMALL[k]
    ensures c !in CAPITALS ==> Lower(c) == c
  {
    Alphabet();
    if 'a' <= c <= 'z' {
      assert SMALL[c as int - 'a' as int] == c;
    } else if 'A' <= c <= 'Z' {
      assert CAPITALS[c as int - 'A' as int] == c;
    } else if '0' <= c <= '9' {
      assert DIGITS[c as int - '0' as int] == c;
    }
  }

  /** What is kept of a text, in order. */
  function Kept(s: string): string {
    if s == "" then "" else (if Alphanumeric(s[0]) then [Lower(s[0])] else "") + Kept(s[1..])
  }

  function Flat(words: seq<string>): string {
    if words == [] then "" else words[0] + Flat(words[1..])
  }

  lemma {:induction false} KeptConcat(a: string, b: string)
    ensures Kept(a + b) == Kept(a) + Kept(b)
  {
    if a == "" {
      assert a + b == b;
    } else {
      var first := if Alphanumeric(a[0]) then [Lower(a[0])] else "";
      KeptConcat(a[1..], b);
      Grouped([a[0]], a[1..], b);
      assert [a[0]] + a[1..] == a;
      KeptFrom(a[0], a[1..] + b);
      Grouped(first, Kept(a[1..]), Kept(b));
    }
  }

  lemma Grouped(a: string, b: string, c: string)
    ensures a + (b + c) == a + b + c
  {
  }

  lemma KeptFrom(c: char, rest: string)
    ensures Kept([c] + rest) == (if Alphanumeric(c) then [Lower(c)] else "") + Kept(rest)
  {
    assert ([c] + rest)[1..] == rest;
  }

  lemma {:induction false} KeptOfWord(s: string)
    requires AllWord(s)
    ensures Kept(s) == LowerAll(s)
  {
    if s != "" {
      KeptOfWord(s[1..]);
      assert LowerAll(s) == [Lower(s[0])] + LowerAll(s[1..]);
    }
  }

  lemma {:induction false} RunsAreKept(s: string)
    ensures Flat(Runs(s)) == Kept(s)
    decreases |s|
  {
    if s != "" {
      var n := Lead(s);
      if n == 0 {
        RunsAreKept(s[1..]);
        KeptFrom(s[0], s[1..]);
        assert s == [s[0]] + s[1..];
      } else {
        RunsAreKept(s[n..]);
        RunIsKept(s, n);
      }
    }
  }

  lemma RunIsKept(s: string, n: nat)
    requires s != "" && n == Lead(s) > 0 && Flat(Runs(s[n..])) == Kept(s[n..])
    ensures Flat(Runs(s)) == Kept(s)
  {
    SplitIsKept(s[..n], s[n..]);
    assert s == s[..n] + s[n..];
  }

  lemma SplitIsKept(head: string, rest: string)
    requires AllWord(head) && head != "" && (rest == "" || !Alphanumeric(rest[0])) && Flat(Runs(rest)) == Kept(rest)
    ensures Flat(Runs(head + rest)) == Kept(head + rest)
  {
    RunsFrom(head, rest);
    FlatFrom(LowerAll(head), Runs(rest));
    KeptConcat(head, rest);
    KeptOfWord(head);
  }

  lemma FlatFrom(w: string, words: seq<string>)
    ensures Flat([w] + words) == w + Flat(words)
  {
    assert ([w] + words)[1..] == words;
  }

  lemma KeptHyphen(rest: string)
    ensures Kept("-" + rest) == Kept(rest)
  {
    assert ("-" + rest)[1..] == rest;
  }

  lemma {:induction false} JoinIsKept(words: seq<string>)
    requires forall w <- words :: Word(w)
    ensures Kept(Join(words)) == Flat(words)
  {
    if words != [] {
      assert Word(words[0]);
      KeptOfWord(words[0]);
      assert LowerAll(words[0]) == words[0];
      JoinIsKept(words[1..]);
      if |words| > 1 {
        assert Join(words) == words[0] + ("-" + Join(words[1..]));
        KeptConcat(words[0], "-" + Join(words[1..]));
        KeptHyphen(Join(words[1..]));
      } else {
        assert words[1..] == [] && words[0] + "" == words[0];
      }
    }
  }

  /** **The name is the letters and digits of the text, in order**, with nothing among them but hyphens; and where
      there are none it is `default`. */
  lemma LettersInOrder(s: string)
    ensures if Kept(s) == "" then SlugOf(Some(s)) == "default" else Kept(SlugOf(Some(s))) == Kept(s)
  {
    RunsAreKept(s);
    RunsAreWords(s);
    JoinIsKept(Runs(s));
    if Runs(s) != [] {
      assert Word(Runs(s)[0]);
    }
  }

  /** A word of the text is a word of the name: what stands between words, however much, is one hyphen. */
  lemma WordsApart(before: string, between: string, after: string)
    requires EndsInWord(before) && between != "" && forall i | 0 <= i < |between| :: !Alphanumeric(between[i])
    ensures Runs(before + between + after) == Runs(before) + Runs(after)
    decreases |after|
  {
    if after == "" {
      OtherAppended(before, between);
      assert before + between + after == before + between && Runs(before) + [] == Runs(before);
    } else {
      var t := |after| - 1;
      WordsApart(before, between, after[..t]);
      var text := before + between + after[..t];
      LastApart(before, between, after);
      RunsAppend(text, after[t]);
      RunsAppend(after[..t], after[t]);
      ExtendedLater(Runs(before), Runs(after[..t]), EndsInWord(after[..t]), after[t]);
    }
  }

  lemma LastApart(before: string, between: string, after: string)
    requires between != "" && !Alphanumeric(between[|between| - 1]) && after != ""
    ensures var t := |after| - 1; var text := before + between + after[..t];
      && before + between + after == text + [after[t]] && after == after[..t] + [after[t]]
      && (EndsInWord(text) <==> EndsInWord(after[..t]))
  {
  }

  lemma {:induction false} OtherAppended(s: string, others: string)
    requires forall i | 0 <= i < |others| :: !Alphanumeric(others[i])
    ensures Runs(s + others) == Runs(s)
    decreases |others|
  {
    if others == "" {
      assert s + others == s;
    } else {
      var t := |others| - 1;
      OtherAppended(s, others[..t]);
      RunsAppend(s + others[..t], others[t]);
      assert s + others == s + others[..t] + [others[t]];
    }
  }
}
