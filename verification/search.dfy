/** The text handling of the name/title search: `trim()`, `toLowerCase()`, the scanner
    standing in for `raw.match(/"[^"]+"|\S+/g)`, the quote strip
    `t.replace(/^"|"$/g, '')` and the substring test `includes`. */
module Search {
  import opened Optional
  import opened Records

  /** The characters JavaScript's `trim()` removes and `\s` matches: the white space and
      line terminators of ECMAScript. */
  predicate IsSpace(c: char)
  {
    || c == ' ' || c == '\t' || c == '\n' || c == '\U{000B}' || c == '\U{000C}' || c == '\r'
    || c == '\U{00A0}' || c == '\U{1680}' || ('\U{2000}' <= c <= '\U{200A}')
    || c == '\U{2028}' || c == '\U{2029}' || c == '\U{202F}' || c == '\U{205F}'
    || c == '\U{3000}' || c == '\U{FEFF}'
  }

  predicate AllSpace(s: string)
  {
    forall k :: 0 <= k < |s| ==> IsSpace(s[k])
  }

  /** The needle occurs in the haystack at position i. */
  predicate OccursAt(hay: string, needle: string, i: nat)
  {
    i + |needle| <= |hay| && hay[i..i + |needle|] == needle
  }

  /** Drops the leading white space: what is left is the suffix that starts at the first
      other character. */
  function TrimStart(s: string): (r: string)
    ensures |r| <= |s| && r == s[|s| - |r|..]
    ensures forall k :: 0 <= k < |s| - |r| ==> IsSpace(s[k])
    ensures r == [] || !IsSpace(r[0])
  {
    if s != [] && IsSpace(s[0]) then TrimStart(s[1..]) else s
  }

  /** Drops the trailing white space: what is left is the prefix that ends at the last
      other character. */
  function TrimEnd(s: string): (r: string)
    ensures |r| <= |s| && r == s[..|r|]
    ensures forall k :: |r| <= k < |s| ==> IsSpace(s[k])
    ensures r == [] || !IsSpace(r[|r| - 1])
  {
    if s != [] && IsSpace(s[|s| - 1]) then TrimEnd(s[..|s| - 1]) else s
  }

  /** `String.prototype.trim`. */
  function Trim(s: string): (r: string)
    ensures |r| <= |s|
    ensures r == [] || (!IsSpace(r[0]) && !IsSpace(r[|r| - 1]))
  {
    TrimEnd(TrimStart(s))
  }

  /** Trimming leaves a slice of the input whose ends are not white space, and removes
      only white space; the result is empty exactly when the input is all white space. */
  lemma TrimIsSlice(s: string)
    ensures exists i: nat :: OccursAt(s, Trim(s), i)
    ensures Trim(s) == [] || (!IsSpace(Trim(s)[0]) && !IsSpace(Trim(s)[|Trim(s)| - 1]))
    ensures Trim(s) == [] <==> AllSpace(s)
  {
    var a := TrimStart(s);
    var i := |s| - |a|;
    assert OccursAt(s, Trim(s), i);
    if Trim(s) != [] {
      assert Trim(s)[0] == a[0];
    }
    if Trim(s) == [] {
      assert a == [];
    }
  }

  /** Trimming twice is trimming once. */
  lemma TrimIdempotent(s: string)
    ensures Trim(Trim(s)) == Trim(s)
  {
    var t := Trim(s);
    if t != [] {
      assert TrimStart(t) == t;
      assert TrimEnd(t) == t;
    }
  }

  /** `toLowerCase` on one character; only the ASCII capitals are mapped. */
  function LowerChar(c: char): char
  {
    if 'A' <= c <= 'Z' then (c as int - 'A' as int + 'a' as int) as char else c
  }

  /** `String.prototype.toLowerCase`, character by character. */
  function Lower(s: string): (r: string)
    ensures |r| == |s|
    ensures forall k :: 0 <= k < |s| ==> r[k] == LowerChar(s[k])
  {
    seq(|s|, k requires 0 <= k < |s| => LowerChar(s[k]))
  }

  /** Lowering leaves no capital letter, keeps every other character, and is idempotent;
      it neither creates nor removes white space, so it commutes with trimming. */
  lemma LowerProperties(s: string)
    ensures forall k :: 0 <= k < |s| ==> !('A' <= Lower(s)[k] <= 'Z')
    ensures forall k :: 0 <= k < |s| && !('A' <= s[k] <= 'Z') ==> Lower(s)[k] == s[k]
    ensures Lower(Lower(s)) == Lower(s)
    ensures forall k :: 0 <= k < |s| ==> (IsSpace(Lower(s)[k]) <==> IsSpace(s[k]))
  {
  }

  /** The position of the first `"` at or after `i`, or the length when there is none. */
  function NextQuote(s: string, i: nat): (r: nat)
    requires i <= |s|
    ensures i <= r <= |s|
    ensures r < |s| ==> s[r] == '"'
    ensures forall k :: i <= k < r ==> s[k] != '"'
    decreases |s| - i
  {
    if i == |s| || s[i] == '"' then i else NextQuote(s, i + 1)
  }

  /** The position of the first white space at or after `i`, or the length when there is
      none. */
  function RunEnd(s: string, i: nat): (r: nat)
    requires i <= |s|
    ensures i <= r <= |s|
    ensures r < |s| ==> IsSpace(s[r])
    ensures forall k :: i <= k < r ==> !IsSpace(s[k])
    decreases |s| - i
  {
    if i == |s| || IsSpace(s[i]) then i else RunEnd(s, i + 1)
  }

  /** A match of the first alternative `"[^"]+"`: a quote, at least one other character,
      and the next quote. */
  predicate IsPhrase(t: string)
  {
    && |t| >= 3 && t[0] == '"' && t[|t| - 1] == '"'
    && forall k :: 1 <= k < |t| - 1 ==> t[k] != '"'
  }

  /** A match of the second alternative `\S+`. */
  predicate IsRun(t: string)
  {
    t != [] && forall k :: 0 <= k < |t| ==> !IsSpace(t[k])
  }

  /** A phrase at the start of `s` ends at the first quote after the opening one. */
  lemma PhraseCloses(s: string, n: nat)
    requires 0 < n <= |s| && IsPhrase(s[..n])
    ensures NextQuote(s, 1) == n - 1
  {
    assert s[n - 1] == s[..n][n - 1];
    assert forall k :: 1 <= k < n - 1 ==> s[k] == s[..n][k];
  }

  /** The length of the match the regular expression makes at the start of `s`, which
      does not start with white space. The first alternative wins: when a prefix of `s`
      is a phrase, that phrase is the match. Otherwise the second alternative takes the
      longest run of non-space characters. */
  function TokenEnd(s: string): (r: nat)
    requires s != [] && !IsSpace(s[0])
    ensures 0 < r <= |s|
    ensures IsPhrase(s[..r]) || IsRun(s[..r])
    ensures forall n :: 0 < n <= |s| && IsPhrase(s[..n]) ==> r == n
    ensures (forall n :: 0 < n <= |s| ==> !IsPhrase(s[..n])) ==>
      IsRun(s[..r]) && (r == |s| || IsSpace(s[r]))
  {
    var q := NextQuote(s, 1);
    if s[0] == '"' && 2 <= q < |s| then
      assert IsPhrase(s[..q + 1]);
      assert forall n :: 0 < n <= |s| && IsPhrase(s[..n]) ==> NextQuote(s, 1) == n - 1 by {
        forall n | 0 < n <= |s| && IsPhrase(s[..n]) {
          PhraseCloses(s, n);
        }
      }
      q + 1
    else
      assert forall n :: 0 < n <= |s| ==> !IsPhrase(s[..n]) by {
        forall n | 0 < n <= |s| && IsPhrase(s[..n]) ensures false {
          PhraseCloses(s, n);
        }
      }
      RunEnd(s, 0)
  }

  /** `s.match(/"[^"]+"|\S+/g) || []`: the matches from left to right, white space
      between them skipped. */
  function Tokens(s: string): (r: seq<string>)
    ensures forall k :: 0 <= k < |r| ==> IsPhrase(r[k]) || IsRun(r[k])
    ensures r == [] <==> AllSpace(s)
    decreases |s|
  {
    if s == [] then []
    else if IsSpace(s[0]) then Tokens(s[1..])
    else
      var e := TokenEnd(s);
      [s[..e]] + Tokens(s[e..])
  }

  /** `t.replace(/^"|"$/g, '')`: one leading and then one trailing quote removed. */
  function StripQuotes(t: string): (r: string)
    ensures |t| - 2 <= |r| <= |t|
    ensures (t == [] || (t[0] != '"' && t[|t| - 1] != '"')) ==> r == t
  {
    var a := if t != [] && t[0] == '"' then t[1..] else t;
    if a != [] && a[|a| - 1] == '"' then a[..|a| - 1] else a
  }

  /** A phrase loses exactly its two quotes; text without quotes is kept as it is; and
      the bare `""` (a run, as it closes no phrase) becomes the empty string. */
  lemma StripQuotesProperties(t: string)
    ensures IsPhrase(t) ==> StripQuotes(t) == t[1..|t| - 1] && StripQuotes(t) != []
    ensures (forall k :: 0 <= k < |t| ==> t[k] != '"') ==> StripQuotes(t) == t
    ensures t == "\"\"" ==> StripQuotes(t) == []
    ensures |t| - 2 <= |StripQuotes(t)| <= |t|
  {
    if t != [] && (forall k :: 0 <= k < |t| ==> t[k] != '"') {
      assert t[0] != '"' && t[|t| - 1] != '"';
    }
  }

  /** The search terms of a raw input: trimmed, lowered, scanned, and unquoted. */
  function Terms(raw: string): (r: seq<string>)
    ensures |r| == |Tokens(Lower(Trim(raw)))|
    ensures forall k :: 0 <= k < |r| ==> r[k] == StripQuotes(Tokens(Lower(Trim(raw)))[k])
  {
    var tokens := Tokens(Lower(Trim(raw)));
    seq(|tokens|, k requires 0 <= k < |tokens| => StripQuotes(tokens[k]))
  }

  /** Words and phrases joined by single spaces, as a user would type them. */
  function Unwords(ts: seq<string>): string
  {
    if ts == [] then []
    else if |ts| == 1 then ts[0]
    else ts[0] + " " + Unwords(ts[1..])
  }

  /** A typed word: a run that does not start with a quote. */
  predicate IsWord(t: string)
  {
    IsRun(t) && t[0] != '"'
  }

  /** What the scanner finds at the start of a phrase or word followed by anything that
      starts with white space. */
  lemma TokenEndOf(t: string, rest: string)
    requires IsPhrase(t) || IsWord(t)
    requires rest == [] || IsSpace(rest[0])
    ensures TokenEnd(t + rest) == |t|
  {
    var s := t + rest;
    assert s[..|t|] == t;
    if IsPhrase(t) {
      var q := NextQuote(s, 1);
      assert s[|t| - 1] == '"';
      assert q == |t| - 1;
    } else {
      var e := RunEnd(s, 0);
      assert e == |t|;
    }
  }

  /** Scanning what was typed as words and phrases gives back exactly those words and
      phrases. */
  lemma {:induction false} TokensUnwords(ts: seq<string>)
    requires forall k :: 0 <= k < |ts| ==> IsPhrase(ts[k]) || IsWord(ts[k])
    ensures Tokens(Unwords(ts)) == ts
    decreases |ts|
  {
    if ts == [] {
    } else if |ts| == 1 {
      var t := ts[0];
      TokenEndOf(t, []);
      assert t + [] == t;
      assert t[|t|..] == [];
    } else {
      var t := ts[0];
      var rest := " " + Unwords(ts[1..]);
      assert Unwords(ts) == t + rest;
      TokenEndOf(t, rest);
      assert (t + rest)[..|t|] == t;
      assert (t + rest)[|t|..] == rest;
      assert rest[1..] == Unwords(ts[1..]);
      TokensUnwords(ts[1..]);
    }
  }

  /** Tokens and the white space around them: `gaps[0]`, `ts[0]`, `gaps[1]`, ..., `ts[n - 1]`,
      `gaps[n]`. */
  function Spaced(ts: seq<string>, gaps: seq<string>): string
    requires |gaps| == |ts| + 1
    decreases |ts|
  {
    if ts == [] then gaps[0] else gaps[0] + ts[0] + Spaced(ts[1..], gaps[1..])
  }

  /** Any white space before, between and after the tokens, with at least one white-space
      character between two of them. */
  predicate GapsOk(ts: seq<string>, gaps: seq<string>)
  {
    && |gaps| == |ts| + 1
    && (forall k :: 0 <= k < |gaps| ==> AllSpace(gaps[k]))
    && (forall k :: 0 < k < |ts| ==> gaps[k] != [])
  }

  /** White space in front of a text adds no token. */
  lemma {:induction false} TokensSkipSpace(g: string, s: string)
    requires AllSpace(g)
    ensures Tokens(g + s) == Tokens(s)
    decreases |g|
  {
    if g != [] {
      var x := g + s;
      assert x[0] == g[0] && IsSpace(x[0]);
      assert x[1..] == g[1..] + s;
      assert Tokens(x) == Tokens(x[1..]);
      assert AllSpace(g[1..]) by {
        assert forall k :: 0 <= k < |g| - 1 ==> g[1..][k] == g[k + 1];
      }
      TokensSkipSpace(g[1..], s);
    } else {
      assert g + s == s;
    }
  }

  /** What follows the first token is again tokens with white space around them, and it
      is empty or starts with white space. */
  lemma GapsTail(ts: seq<string>, gaps: seq<string>)
    requires GapsOk(ts, gaps) && ts != []
    ensures GapsOk(ts[1..], gaps[1..])
    ensures var rest := Spaced(ts[1..], gaps[1..]); rest == [] || IsSpace(rest[0])
  {
    assert forall k :: 0 <= k < |gaps| - 1 ==> gaps[1..][k] == gaps[k + 1];
    assert AllSpace(gaps[1]);
    if |ts| > 1 {
      assert gaps[1] != [];
    }
  }

  /** Scanning words and phrases typed with any white space around and between them,
      spaces, tabs and line breaks alike and as many as wanted, gives back exactly those
      words and phrases. */
  lemma {:induction false} TokensSpaced(ts: seq<string>, gaps: seq<string>)
    requires GapsOk(ts, gaps)
    requires forall k :: 0 <= k < |ts| ==> IsPhrase(ts[k]) || IsWord(ts[k])
    ensures Tokens(Spaced(ts, gaps)) == ts
    decreases |ts|
  {
    if ts == [] {
      TokensSkipSpace(gaps[0], []);
      assert gaps[0] + [] == gaps[0];
    } else {
      var t := ts[0];
      var rest := Spaced(ts[1..], gaps[1..]);
      GapsTail(ts, gaps);
      assert Spaced(ts, gaps) == gaps[0] + (t + rest);
      TokensSkipSpace(gaps[0], t + rest);
      TokenEndOf(t, rest);
      assert (t + rest)[..|t|] == t;
      assert (t + rest)[|t|..] == rest;
      TokensSpaced(ts[1..], gaps[1..]);
    }
  }

  /** A quote that no other quote closes is scanned as part of an ordinary run: typing
      `"jane doe` searches for `"jane` and `doe`. */
  lemma TokensUnclosed(t: string, rest: string)
    requires IsRun(t) && t[0] == '"'
    requires forall k :: 1 <= k < |t| ==> t[k] != '"'
    requires forall k :: 0 <= k < |rest| ==> rest[k] != '"'
    requires rest == [] || IsSpace(rest[0])
    ensures Tokens(t + rest) == [t] + Tokens(rest)
  {
    var s := t + rest;
    assert s[..|t|] == t && s[|t|..] == rest;
    assert forall k :: 1 <= k < |s| ==> s[k] != '"';
    assert NextQuote(s, 1) == |s|;
    assert RunEnd(s, 0) == |t|;
  }

  /** `hay.includes(needle)`. */
  function Includes(hay: string, needle: string): (r: bool)
    ensures needle <= hay ==> r
    ensures |needle| > |hay| ==> !r
    decreases |hay|
  {
    needle <= hay || (hay != [] && Includes(hay[1..], needle))
  }

  /** `includes` holds exactly when the needle occurs somewhere in the haystack; the
      empty needle occurs in every string. */
  lemma {:induction false} IncludesOccurs(hay: string, needle: string)
    ensures Includes(hay, needle) <==> exists i: nat :: OccursAt(hay, needle, i)
    ensures Includes(hay, [])
    decreases |hay|
  {
    assert OccursAt(hay, [], 0);
    if needle <= hay {
      assert OccursAt(hay, needle, 0);
    } else if hay == [] {
    } else {
      IncludesOccurs(hay[1..], needle);
      if Includes(hay[1..], needle) {
        var i: nat :| OccursAt(hay[1..], needle, i);
        assert hay[1..][i..i + |needle|] == hay[i + 1..i + 1 + |needle|];
        assert OccursAt(hay, needle, i + 1);
      }
      if exists i: nat :: OccursAt(hay, needle, i) {
        var i: nat :| OccursAt(hay, needle, i);
        assert i != 0;
        assert hay[1..][i - 1..i - 1 + |needle|] == hay[i..i + |needle|];
        assert OccursAt(hay[1..], needle, i - 1);
      }
    }
  }

  /** The filter of the search: a record matches when some term occurs in its lowered
      name or title, a missing name or title reading as the empty string. */
  predicate Matches(u: User, terms: seq<string>)
    ensures Matches(u, terms) ==> terms != []
  {
    exists k :: 0 <= k < |terms| &&
      (Includes(Lower(OrElse(u.name, "")), terms[k]) || Includes(Lower(OrElse(u.title, "")), terms[k]))
  }

  /** The emails of the records the search finds. */
  function SearchEmails(org: seq<User>, terms: seq<string>): (r: set<Email>)
    ensures forall u :: u in org && Matches(u, terms) ==> u.email in r
    ensures forall e :: e in r ==> exists u :: u in org && Matches(u, terms) && u.email == e
  {
    set u | u in org && Matches(u, terms) :: u.email
  }

  /** An empty term (typed as `""`) is found in every name, so it matches every record. */
  lemma EmptyTermMatchesAll(u: User, terms: seq<string>)
    requires [] in terms
    ensures Matches(u, terms)
  {
    var k :| 0 <= k < |terms| && terms[k] == [];
    IncludesOccurs(Lower(OrElse(u.name, "")), []);
  }

  /** Every string of a list lowered. */
  function LowerAll(ts: seq<string>): (r: seq<string>)
    ensures |r| == |ts| && forall k :: 0 <= k < |ts| ==> r[k] == Lower(ts[k])
  {
    seq(|ts|, k requires 0 <= k < |ts| => Lower(ts[k]))
  }

  /** Lowering a typed line lowers each of its words and phrases. */
  lemma {:induction false} LowerUnwords(ts: seq<string>)
    ensures Lower(Unwords(ts)) == Unwords(LowerAll(ts))
    decreases |ts|
  {
    if |ts| > 1 {
      LowerUnwords(ts[1..]);
      assert LowerAll(ts)[1..] == LowerAll(ts[1..]);
      var a := ts[0] + " " + Unwords(ts[1..]);
      assert Lower(a) == Lower(ts[0]) + " " + Lower(Unwords(ts[1..]));
    }
  }

  /** Lowering keeps a phrase a phrase and a word a word. */
  lemma LowerKeepsShape(t: string)
    ensures IsPhrase(t) ==> IsPhrase(Lower(t))
    ensures IsWord(t) ==> IsWord(Lower(t))
  {
    LowerProperties(t);
  }

  /** A typed line starts with its first word and ends with its last. */
  lemma {:induction false} UnwordsEnds(ts: seq<string>)
    requires ts != [] && forall k :: 0 <= k < |ts| ==> ts[k] != []
    ensures Unwords(ts) != []
    ensures Unwords(ts)[0] == ts[0][0]
    ensures Unwords(ts)[|Unwords(ts)| - 1] == ts[|ts| - 1][|ts[|ts| - 1]| - 1]
    decreases |ts|
  {
    if |ts| > 1 {
      UnwordsEnds(ts[1..]);
    }
  }

  /** A text that neither starts nor ends with white space is left as it is by `trim()`. */
  lemma TrimNothing(s: string)
    requires s != [] && !IsSpace(s[0]) && !IsSpace(s[|s| - 1])
    ensures Trim(s) == s
  {
    assert TrimStart(s) == s;
  }

  /** A word or a phrase is not empty and neither starts nor ends with white space. */
  lemma TypedEnds(t: string)
    requires IsPhrase(t) || IsWord(t)
    ensures t != [] && !IsSpace(t[0]) && !IsSpace(t[|t| - 1])
  {
  }

  /** A typed line of words and phrases neither starts nor ends with white space. */
  lemma TypedLineEnds(ts: seq<string>)
    requires ts != [] && forall k :: 0 <= k < |ts| ==> IsPhrase(ts[k]) || IsWord(ts[k])
    ensures var line := Unwords(ts); line != [] && !IsSpace(line[0]) && !IsSpace(line[|line| - 1])
  {
    forall k | 0 <= k < |ts|
      ensures ts[k] != []
    {
      TypedEnds(ts[k]);
    }
    UnwordsEnds(ts);
    TypedEnds(ts[0]);
    TypedEnds(ts[|ts| - 1]);
  }

  /** A typed line of words and phrases has nothing to trim. */
  lemma TypedIsTrimmed(ts: seq<string>)
    requires forall k :: 0 <= k < |ts| ==> IsPhrase(ts[k]) || IsWord(ts[k])
    ensures Trim(Unwords(ts)) == Unwords(ts)
  {
    var line := Unwords(ts);
    if ts == [] {
      assert line == [];
      assert TrimStart(line) == line;
    } else {
      TypedLineEnds(ts);
      TrimNothing(line);
    }
  }

  /** What a user types as words and phrases separated by single spaces is searched for
      as exactly those words and phrases, lowered, with the quotes of each phrase removed. */
  lemma TermsOfTyped(ts: seq<string>)
    requires forall k :: 0 <= k < |ts| ==> IsPhrase(ts[k]) || IsWord(ts[k])
    ensures |Terms(Unwords(ts))| == |ts|
    ensures forall k :: 0 <= k < |ts| ==> Terms(Unwords(ts))[k] == StripQuotes(Lower(ts[k]))
  {
    var line := Unwords(ts);
    var lowered := LowerAll(ts);
    TypedIsTrimmed(ts);
    LowerUnwords(ts);
    assert Lower(Trim(line)) == Unwords(lowered);
    forall k | 0 <= k < |ts|
      ensures IsPhrase(lowered[k]) || IsWord(lowered[k])
    {
      LowerKeepsShape(ts[k]);
    }
    TokensUnwords(lowered);
    assert Tokens(Lower(Trim(line))) == lowered;
  }

  /** A record matches when one of the terms occurs in its lowered name. */
  lemma MatchesByName(u: User, terms: seq<string>, k: nat, i: nat)
    requires k < |terms| && OccursAt(Lower(OrElse(u.name, "")), terms[k], i)
    ensures Matches(u, terms)
  {
    IncludesOccurs(Lower(OrElse(u.name, "")), terms[k]);
  }
}
