/**
 * The generated-articles page (app/generated_articles/page.tsx): the listing
 * of past posts, newest first, each shown with a title, a plain-text preview of
 * its Markdown after the author and date placeholders are filled in, and a
 * button that expands one post at a time.
 */
module Articles {
  import opened Wrappers
  import opened JsString
  import opened Blog

  /* ------------------------------ injectMetadata ------------------------------ */

  const AUTHOR_WORD: string := "Author Name"
  const DATE_WORD: string := "Date"
  const AUTHOR_PLACEHOLDER: string := "[" + AUTHOR_WORD + "]"
  const DATE_PLACEHOLDER: string := "[" + DATE_WORD + "]"
  const AUTHOR: string := "PaceFlow"

  /** `new Date().toISOString().slice(0, 10)` for a four-digit year: `YYYY-MM-DD`. */
  predicate IsDateStamp(d: string) {
    |d| == 10 && d[4] == '-' && d[7] == '-'
    && forall i :: 0 <= i < 10 && i != 4 && i != 7 ==> '0' <= d[i] <= '9'
  }

  /** `injectMetadata`: every `[Author Name]` becomes the author, then every `[Date]` becomes `today`, letter case ignored. */
  function InjectMetadata(md: string, today: string): (r: string)
    ensures forall c :: c in r ==> c in md || c in AUTHOR || c in today
  {
    ReplaceAllCI(ReplaceAllCI(md, AUTHOR_PLACEHOLDER, AUTHOR), DATE_PLACEHOLDER, today)
  }

  /** `[` or `]`. */
  predicate IsBracket(c: char) {
    c == '[' || c == ']'
  }

  /** No character of `s` is a bracket. */
  predicate BracketFree(s: string) {
    forall i :: 0 <= i < |s| ==> !IsBracket(s[i])
  }

  /** A placeholder is a bracket-free word between `[` and `]`. */
  predicate IsPlaceholder(q: string) {
    |q| >= 2 && q[0] == '[' && q[|q| - 1] == ']' && BracketFree(q[1..|q| - 1])
  }

  /** Text that has no bracket cannot hold the opening of a placeholder. */
  lemma {:induction false} SkipBracketFree(x: string, y: string, q: string)
    requires BracketFree(x) && q != [] && q[0] == '['
    ensures ContainsCI(x + y, q) ==> ContainsCI(y, q)
    decreases |x|
  {
    if x == [] {
      assert x + y == y;
    } else {
      assert Fold((x + y)[0]) != Fold(q[0]);
      assert (x + y)[1..] == x[1..] + y;
      SkipBracketFree(x[1..], y, q);
    }
  }

  /** No character of `w` is `c`, letter case ignored. */
  predicate Avoids(w: string, c: char) {
    w == [] || (Fold(w[0]) != Fold(c) && Avoids(w[1..], c))
  }

  /** Letters and spaces only, as in the placeholder words. */
  predicate IsWord(w: string) {
    w == [] || (('A' <= w[0] <= 'Z' || 'a' <= w[0] <= 'z' || w[0] == ' ') && IsWord(w[1..]))
  }

  /** A word has no bracket and avoids every digit. */
  lemma {:induction false} WordFacts(w: string, digit: char)
    requires IsWord(w) && '0' <= digit <= '9'
    ensures BracketFree(w) && Avoids(w, digit)
    decreases |w|
  {
    if w != [] {
      WordFacts(w[1..], digit);
      assert forall i :: 1 <= i < |w| ==> w[i] == w[1..][i - 1];
    }
  }

  /** A word that avoids the first character of `rep` does not contain `rep`. */
  lemma {:induction false} MissingFirstChar(w: string, rep: string)
    requires rep != [] && Avoids(w, rep[0])
    ensures !ContainsCI(w, rep)
    decreases |w|
  {
    if w != [] {
      assert !StartsWithCI(w, rep) by { assert Fold(w[0]) != Fold(rep[0]); }
      MissingFirstChar(w[1..], rep);
    }
  }

  /** If a word begins with `u + rep`, it contains `rep`. */
  lemma PrefixThenRep(w: string, u: string, rep: string)
    ensures StartsWithCI(w, u + rep) ==> ContainsCI(w, rep)
  {
    if StartsWithCI(w, u + rep) {
      assert StartsWithCI(w[|u|..], rep) by {
        forall k | 0 <= k < |rep| ensures Fold(w[|u|..][k]) == Fold(rep[k]) {
          assert (u + rep)[|u| + k] == rep[k];
        }
      }
      ContainsInSuffix(w, |u|, rep);
    }
  }

  /** A bracket-free text stays bracket-free when a character other than a bracket is added at its end. */
  lemma AppendBracketFree(u: string, c: char)
    requires BracketFree(u) && !IsBracket(c)
    ensures BracketFree(u + [c])
  {
    forall i | 0 <= i < |u| + 1 ensures !IsBracket((u + [c])[i]) {
      if i < |u| { assert (u + [c])[i] == u[i]; }
    }
  }

  /** Regrouping: the character after `u` can be moved to the front of the rest of the text. */
  lemma MoveChar(u: string, c: char, x: string)
    ensures ['['] + (u + [c]) + x == ['['] + u + ([c] + x)
  {
  }

  /** A text that begins with `u + v` begins with `u`. */
  lemma LongerPrefix(w: string, u: string, v: string)
    ensures StartsWithCI(w, u + v) ==> StartsWithCI(w, u)
  {
    if StartsWithCI(w, u + v) {
      forall k | 0 <= k < |u| ensures Fold(w[k]) == Fold(u[k]) {
        assert (u + v)[k] == u[k];
      }
    }
  }

  /** When `u` is at least as long as the word of `q`, `[` followed by `u` cannot begin `q`: its `]` would fall on `u`. */
  lemma ClosingFallsOnText(u: string, x: string, q: string)
    requires IsPlaceholder(q) && BracketFree(u) && |u| + 1 >= |q|
    ensures !StartsWithCI(['['] + u + x, q)
  {
    var out := ['['] + u + x;
    assert out[|q| - 1] == u[|q| - 2];
    assert Fold(out[|q| - 1]) != Fold(q[|q| - 1]);
  }

  /** When `u` is not a beginning of the word of `q`, `[` followed by `u` cannot begin `q`. */
  lemma DepartsFromWord(u: string, x: string, q: string)
    requires IsPlaceholder(q) && |u| + 1 < |q| && !StartsWithCI(q[1..|q| - 1], u)
    ensures !StartsWithCI(['['] + u + x, q)
  {
    var w := q[1..|q| - 1];
    var out := ['['] + u + x;
    var k :| 0 <= k < |u| && Fold(w[k]) != Fold(u[k]);
    assert out[k + 1] == u[k] && q[k + 1] == w[k];
  }

  /**
   * A bracket right after `[` and `u` ends any chance of `q` unless it is the
   * `]` exactly where `q` closes; then only those characters decide.
   */
  lemma BracketAfterText(u: string, c: char, x: string, y: string, q: string)
    requires IsPlaceholder(q) && |u| + 1 < |q| && IsBracket(c)
    ensures (c == ']' && |u| + 2 == |q|) || !StartsWithCI(['['] + u + [c] + x, q)
    ensures c == ']' && |u| + 2 == |q| ==>
      StartsWithCI(['['] + u + [c] + x, q) == StartsWithCI(['['] + u + [c] + y, q)
  {
    var out := ['['] + u + [c] + x;
    var alt := ['['] + u + [c] + y;
    if c == ']' && |u| + 2 == |q| {
      forall k | 0 <= k < |q| ensures out[k] == alt[k] {
        assert out[k] == (['['] + u + [c])[k] == alt[k];
      }
    } else {
      assert out[|u| + 1] == c;
      if |u| + 2 < |q| {
        assert q[|u| + 1] == q[1..|q| - 1][|u|];
      }
      assert Fold(out[|u| + 1]) != Fold(q[|u| + 1]);
    }
  }

  /**
   * After a `[` that the scan copied, with the bracket-free text `u` already
   * emitted after it, the replacement of the rest `t` cannot complete the
   * placeholder `q`: either the input did not spell `q` there, or `u` already
   * departs from `q`'s word.
   */
  lemma {:induction false} AfterOpenBracket(u: string, t: string, pat: string, rep: string, q: string)
    requires pat != [] && IsPlaceholder(q) && BracketFree(u) && BracketFree(rep)
    requires !ContainsCI(q[1..|q| - 1], rep)
    requires !StartsWithCI(['['] + u + t, q) || !StartsWithCI(q[1..|q| - 1], u)
    ensures !StartsWithCI(['['] + u + ReplaceAllCI(t, pat, rep), q)
    decreases |t|, 1
  {
    var rest := ReplaceAllCI(t, pat, rep);
    if |u| + 1 >= |q| {
      ClosingFallsOnText(u, rest, q);
    } else if !StartsWithCI(q[1..|q| - 1], u) {
      DepartsFromWord(u, rest, q);
    } else if t == [] {
      assert |['['] + u + rest| < |q|;
    } else if StartsWithCI(t, pat) {
      AfterReplacement(u, t, pat, rep, q);
    } else if !IsBracket(t[0]) {
      AfterPlainChar(u, t, pat, rep, q);
    } else {
      var tail := ReplaceAllCI(t[1..], pat, rep);
      BracketAfterText(u, t[0], tail, t[1..], q);
      assert ['['] + u + rest == ['['] + u + [t[0]] + tail;
      assert ['['] + u + t == ['['] + u + [t[0]] + t[1..];
    }
  }

  /** The case of `AfterOpenBracket` where `t` begins with an occurrence of `pat`, which is replaced by `rep`. */
  lemma {:induction false} AfterReplacement(u: string, t: string, pat: string, rep: string, q: string)
    requires pat != [] && IsPlaceholder(q) && BracketFree(u) && BracketFree(rep)
    requires !ContainsCI(q[1..|q| - 1], rep)
    requires StartsWithCI(t, pat)
    ensures !StartsWithCI(['['] + u + ReplaceAllCI(t, pat, rep), q)
    decreases |t|, 0
  {
    PrefixThenRep(q[1..|q| - 1], u, rep);
    AfterOpenBracket(u + rep, t[|pat|..], pat, rep, q);
    assert ['['] + u + ReplaceAllCI(t, pat, rep) == ['['] + (u + rep) + ReplaceAllCI(t[|pat|..], pat, rep);
  }

  /** The case of `AfterOpenBracket` where `t` begins with a character that is neither a bracket nor part of an occurrence. */
  lemma {:induction false} AfterPlainChar(u: string, t: string, pat: string, rep: string, q: string)
    requires pat != [] && IsPlaceholder(q) && BracketFree(u) && BracketFree(rep)
    requires !ContainsCI(q[1..|q| - 1], rep)
    requires t != [] && !StartsWithCI(t, pat) && !IsBracket(t[0])
    requires !StartsWithCI(['['] + u + t, q) || !StartsWithCI(q[1..|q| - 1], u)
    ensures !StartsWithCI(['['] + u + ReplaceAllCI(t, pat, rep), q)
    decreases |t|, 0
  {
    var u' := u + [t[0]];
    var tail := ReplaceAllCI(t[1..], pat, rep);
    assert ReplaceAllCI(t, pat, rep) == [t[0]] + tail;
    AppendBracketFree(u, t[0]);
    LongerPrefix(q[1..|q| - 1], u, [t[0]]);
    MoveChar(u, t[0], t[1..]);
    assert [t[0]] + t[1..] == t;
    AfterOpenBracket(u', t[1..], pat, rep, q);
    MoveChar(u, t[0], tail);
  }

  /**
   * Replacing every `pat` by a bracket-free `rep` leaves no occurrence of a
   * placeholder `q` whose word does not contain `rep`, when `q` is `pat`
   * itself or did not occur before.
   */
  lemma {:induction false} ReplaceLeavesNone(s: string, pat: string, rep: string, q: string)
    requires pat != [] && IsPlaceholder(q) && BracketFree(rep)
    requires !ContainsCI(q[1..|q| - 1], rep)
    requires q == pat || !ContainsCI(s, q)
    ensures !ContainsCI(ReplaceAllCI(s, pat, rep), q)
    decreases |s|
  {
    if s == [] {
    } else if StartsWithCI(s, pat) {
      ContainsInSuffix(s, |pat|, q);
      ReplaceLeavesNone(s[|pat|..], pat, rep, q);
      SkipBracketFree(rep, ReplaceAllCI(s[|pat|..], pat, rep), q);
    } else {
      var rest := ReplaceAllCI(s[1..], pat, rep);
      ReplaceLeavesNone(s[1..], pat, rep, q);
      ContainsOfCons(s[0], rest, q);
      if s[0] == '[' {
        assert ['['] + [] + s[1..] == s;
        AfterOpenBracket([], s[1..], pat, rep, q);
        assert ['['] + [] + rest == [s[0]] + rest;
      } else {
        assert Fold(([s[0]] + rest)[0]) != Fold(q[0]);
      }
    }
  }

  /** `q` occurs in `[c] + t` when it begins there or occurs in `t`. */
  lemma ContainsOfCons(c: char, t: string, q: string)
    ensures ContainsCI([c] + t, q) <==> StartsWithCI([c] + t, q) || ContainsCI(t, q)
  {
    assert ([c] + t)[1..] == t;
  }

  /** Markdown without either placeholder is returned unchanged. */
  lemma InjectWithoutPlaceholders(md: string, today: string)
    requires !ContainsCI(md, AUTHOR_PLACEHOLDER) && !ContainsCI(md, DATE_PLACEHOLDER)
    ensures InjectMetadata(md, today) == md
  {
    ReplaceAllCIWithoutMatch(md, AUTHOR_PLACEHOLDER, AUTHOR);
    ReplaceAllCIWithoutMatch(md, DATE_PLACEHOLDER, today);
  }

  /** The placeholder words and the author name are words, and the author name avoids the author word. */
  lemma WordConstants()
    ensures IsWord(AUTHOR_WORD) && IsWord(DATE_WORD) && IsWord(AUTHOR)
    ensures AUTHOR[0] == 'P' && Avoids(AUTHOR_WORD, 'P')
  {
    AuthorWordIsWord();
    DateWordIsWord();
    AuthorIsWord();
    AuthorWordAvoidsP();
  }

  // Unfolding the literal one suffix at a time keeps these two proofs small.
  lemma AuthorWordIsWord() ensures IsWord("Author Name") {
    assert IsWord("e");
    assert IsWord("me");
    assert IsWord("ame");
    assert IsWord("Name");
    assert IsWord(" Name");
    assert IsWord("r Name");
    assert IsWord("or Name");
    assert IsWord("hor Name");
    assert IsWord("thor Name");
    assert IsWord("uthor Name");
  }
  lemma DateWordIsWord() ensures IsWord("Date") { }
  lemma AuthorIsWord() ensures IsWord("PaceFlow") { }
  lemma AuthorWordAvoidsP() ensures Avoids("Author Name", 'P') {
    assert Avoids("e", 'P');
    assert Avoids("me", 'P');
    assert Avoids("ame", 'P');
    assert Avoids("Name", 'P');
    assert Avoids(" Name", 'P');
    assert Avoids("r Name", 'P');
    assert Avoids("or Name", 'P');
    assert Avoids("hor Name", 'P');
    assert Avoids("thor Name", 'P');
    assert Avoids("uthor Name", 'P');
  }

  /** The two placeholders have the placeholder shape, and the author name cannot complete one. */
  lemma PlaceholderFacts()
    ensures AUTHOR_PLACEHOLDER[1..|AUTHOR_PLACEHOLDER| - 1] == AUTHOR_WORD
    ensures DATE_PLACEHOLDER[1..|DATE_PLACEHOLDER| - 1] == DATE_WORD
    ensures IsPlaceholder(AUTHOR_PLACEHOLDER) && IsPlaceholder(DATE_PLACEHOLDER) && BracketFree(AUTHOR)
    ensures !ContainsCI(AUTHOR_WORD, AUTHOR)
  {
    WordConstants();
    WordFacts(AUTHOR_WORD, '0');
    WordFacts(DATE_WORD, '0');
    WordFacts(AUTHOR, '0');
    MissingFirstChar(AUTHOR_WORD, AUTHOR);
  }

  /** A date stamp has no bracket and, beginning with a digit, cannot complete either placeholder. */
  lemma DateStampFacts(today: string)
    requires IsDateStamp(today)
    ensures BracketFree(today)
    ensures !ContainsCI(AUTHOR_WORD, today) && !ContainsCI(DATE_WORD, today)
  {
    WordConstants();
    WordFacts(AUTHOR_WORD, today[0]);
    WordFacts(DATE_WORD, today[0]);
    MissingFirstChar(AUTHOR_WORD, today);
    MissingFirstChar(DATE_WORD, today);
  }

  /** No character of a bracket-free text can begin a placeholder, letter case ignored. */
  lemma BracketFreeCannotOpen(w: string)
    requires BracketFree(w)
    ensures forall i :: 0 <= i < |w| ==> Fold(w[i]) != Fold('[')
  {
    forall i | 0 <= i < |w| ensures Fold(w[i]) != Fold('[') {
      assert !IsBracket(w[i]);
    }
  }

  /** Neither placeholder occurs in `x`, in any letter case; brackets of other kinds, such as Markdown links, may. */
  predicate NoPlaceholder(x: string) {
    !ContainsCI(x, AUTHOR_PLACEHOLDER) && !ContainsCI(x, DATE_PLACEHOLDER)
  }

  /** Both placeholders open with `[`. */
  lemma PlaceholdersOpen()
    ensures AUTHOR_PLACEHOLDER != [] && AUTHOR_PLACEHOLDER[0] == '['
    ensures DATE_PLACEHOLDER != [] && DATE_PLACEHOLDER[0] == '['
  {
  }

  /** A character that folds to `[` cannot continue a placeholder: only its first character is `[`. */
  lemma OpenCannotContinue(q: string, c: char)
    requires IsPlaceholder(q) && Fold(c) == Fold('[')
    ensures forall k :: 1 <= k < |q| ==> Fold(c) != Fold(q[k])
  {
    forall k | 1 <= k < |q| ensures Fold(c) != Fold(q[k]) {
      if k < |q| - 1 {
        assert q[k] == q[1..|q| - 1][k - 1];
      }
      assert q[k] != '[';
    }
  }

  /** The first letter of the author name cannot continue a `[Date]` placeholder. */
  lemma AuthorCannotContinueDate()
    ensures forall k :: 1 <= k < |DATE_PLACEHOLDER| ==> Fold(AUTHOR[0]) != Fold(DATE_PLACEHOLDER[k])
  {
    assert DATE_PLACEHOLDER == ['[', 'D', 'a', 't', 'e', ']'];
    assert AUTHOR[0] == 'P';
  }

  /**
   * One replacement pass over `a + m + b`, where `m` is a match of `pat` and
   * neither `a` nor `b` holds one: `m` becomes `rep` and `a` and `b` are kept.
   */
  lemma PassAtMatch(a: string, m: string, b: string, pat: string, rep: string)
    requires pat != [] && !ContainsCI(a, pat) && !ContainsCI(b, pat)
    requires |m| == |pat| && StartsWithCI(m, pat)
    requires forall k :: 1 <= k < |pat| ==> Fold(m[0]) != Fold(pat[k])
    ensures ReplaceAllCI(a + m + b, pat, rep) == a + rep + b
  {
    DropFirstOfJoin(m, b);
    NoMatchBefore(a, m + b, pat);
    ConcatAssoc(a, m, b);
    ReplaceAllCIKeepsText(a, m + b, pat, rep);
    ReplaceAllCIAtMatch(m, b, pat, rep);
    ReplaceAllCIWithoutMatch(b, pat, rep);
    ConcatAssoc(a, rep, b);
  }

  /** One replacement pass leaves `a + t` alone when it leaves `t` alone, `a` holds no match and `t`'s first character cannot continue one. */
  lemma PassKeeps(a: string, t: string, pat: string, rep: string)
    requires pat != [] && !ContainsCI(a, pat) && t != []
    requires forall k :: 1 <= k < |pat| ==> Fold(t[0]) != Fold(pat[k])
    requires ReplaceAllCI(t, pat, rep) == t
    ensures ReplaceAllCI(a + t, pat, rep) == a + t
  {
    NoMatchBefore(a, t, pat);
    ReplaceAllCIKeepsText(a, t, pat, rep);
  }

  /** The date pass leaves the author name, and placeholder-free text after it, alone. */
  lemma DatePassSkipsAuthor(b: string, today: string)
    requires NoPlaceholder(b)
    ensures ReplaceAllCI(AUTHOR + b, DATE_PLACEHOLDER, today) == AUTHOR + b
  {
    PlaceholderFacts();
    PlaceholdersOpen();
    BracketFreeCannotOpen(AUTHOR);
    NoMatchInPlain(AUTHOR, b, DATE_PLACEHOLDER);
    ReplaceAllCIKeepsText(AUTHOR, b, DATE_PLACEHOLDER, today);
    ReplaceAllCIWithoutMatch(b, DATE_PLACEHOLDER, today);
  }

  /**
   * `[Author Name]`, in any letter case, is replaced by the author name, and
   * the texts around it are kept, brackets and all, when neither holds a
   * placeholder.
   */
  lemma InjectAtAuthor(a: string, m: string, b: string, today: string)
    requires NoPlaceholder(a) && NoPlaceholder(b)
    requires |m| == |AUTHOR_PLACEHOLDER| && StartsWithCI(m, AUTHOR_PLACEHOLDER)
    ensures InjectMetadata(a + m + b, today) == a + AUTHOR + b
  {
    PlaceholderFacts();
    PlaceholdersOpen();
    OpenCannotContinue(AUTHOR_PLACEHOLDER, m[0]);
    PassAtMatch(a, m, b, AUTHOR_PLACEHOLDER, AUTHOR);
    DatePassSkipsAuthor(b, today);
    AuthorCannotContinueDate();
    PassKeeps(a, AUTHOR + b, DATE_PLACEHOLDER, today);
    ConcatAssoc(a, AUTHOR, b);
  }

  /** A `[Date]` placeholder, in any letter case, does not begin an `[Author Name]` match. */
  lemma DateIsNotAuthor(m: string, b: string)
    requires |m| == |DATE_PLACEHOLDER| && StartsWithCI(m, DATE_PLACEHOLDER)
    ensures !StartsWithCI(m + b, AUTHOR_PLACEHOLDER)
  {
    assert (m + b)[1] == m[1];
    assert DATE_PLACEHOLDER[1] == 'D' && AUTHOR_PLACEHOLDER[1] == 'A';
    assert Fold(m[1]) == Fold(DATE_PLACEHOLDER[1]);
  }

  /** After its `[`, a `[Date]` placeholder, in any letter case, has no character that can open a placeholder. */
  lemma DateTailCannotOpen(m: string)
    requires |m| == |DATE_PLACEHOLDER| && StartsWithCI(m, DATE_PLACEHOLDER)
    ensures forall k :: 0 <= k < |m| - 1 ==> Fold(m[1..][k]) != Fold('[')
  {
    PlaceholderFacts();
    var q := DATE_PLACEHOLDER;
    forall k | 0 <= k < |m| - 1 ensures Fold(m[1..][k]) != Fold('[') {
      assert Fold(m[1..][k]) == Fold(q[k + 1]);
      if k + 1 < |q| - 1 {
        assert q[k + 1] == q[1..|q| - 1][k];
      }
      assert q[k + 1] != '[';
    }
  }

  /** The author pass leaves a `[Date]` placeholder, in any letter case, and placeholder-free text after it alone. */
  lemma AuthorPassSkipsDate(m: string, b: string)
    requires NoPlaceholder(b)
    requires |m| == |DATE_PLACEHOLDER| && StartsWithCI(m, DATE_PLACEHOLDER)
    ensures ReplaceAllCI(m + b, AUTHOR_PLACEHOLDER, AUTHOR) == m + b
  {
    DateIsNotAuthor(m, b);
    DateTailCannotOpen(m);
    PlaceholdersOpen();
    var t := m[1..];
    NoMatchInPlain(t, b, AUTHOR_PLACEHOLDER);
    ReplaceAllCIKeepsText(t, b, AUTHOR_PLACEHOLDER, AUTHOR);
    ReplaceAllCIWithoutMatch(b, AUTHOR_PLACEHOLDER, AUTHOR);
    DropFirstOfJoin(m, b);
    assert m + b == [m[0]] + (t + b);
  }

  /**
   * `[Date]`, in any letter case, is replaced by the date, and the texts
   * around it are kept, brackets and all, when neither holds a placeholder.
   */
  lemma InjectAtDate(a: string, m: string, b: string, today: string)
    requires NoPlaceholder(a) && NoPlaceholder(b)
    requires |m| == |DATE_PLACEHOLDER| && StartsWithCI(m, DATE_PLACEHOLDER)
    ensures InjectMetadata(a + m + b, today) == a + today + b
  {
    PlaceholderFacts();
    PlaceholdersOpen();
    OpenCannotContinue(AUTHOR_PLACEHOLDER, m[0]);
    OpenCannotContinue(DATE_PLACEHOLDER, m[0]);
    AuthorPassSkipsDate(m, b);
    DropFirstOfJoin(m, b);
    PassKeeps(a, m + b, AUTHOR_PLACEHOLDER, AUTHOR);
    ConcatAssoc(a, m, b);
    PassAtMatch(a, m, b, DATE_PLACEHOLDER, today);
  }

  /** A text with brackets around a placeholder, as in a Markdown link, keeps them: `[` + `[Author Name]` + `]` gives `[PaceFlow]`. */
  lemma InjectNextToLink(today: string)
    ensures InjectMetadata("[" + AUTHOR_PLACEHOLDER + "]", today) == "[PaceFlow]"
  {
    assert !ContainsCI("[", AUTHOR_PLACEHOLDER) && !ContainsCI("[", DATE_PLACEHOLDER);
    assert !ContainsCI("]", AUTHOR_PLACEHOLDER) && !ContainsCI("]", DATE_PLACEHOLDER);
    InjectAtAuthor("[", AUTHOR_PLACEHOLDER, "]", today);
  }

  /** After injection no placeholder is left, in any letter case. */
  lemma InjectLeavesNoPlaceholder(md: string, today: string)
    requires IsDateStamp(today)
    ensures !ContainsCI(InjectMetadata(md, today), AUTHOR_PLACEHOLDER)
    ensures !ContainsCI(InjectMetadata(md, today), DATE_PLACEHOLDER)
  {
    PlaceholderFacts();
    DateStampFacts(today);
    var once := ReplaceAllCI(md, AUTHOR_PLACEHOLDER, AUTHOR);
    ReplaceLeavesNone(md, AUTHOR_PLACEHOLDER, AUTHOR, AUTHOR_PLACEHOLDER);
    ReplaceLeavesNone(once, DATE_PLACEHOLDER, today, AUTHOR_PLACEHOLDER);
    ReplaceLeavesNone(once, DATE_PLACEHOLDER, today, DATE_PLACEHOLDER);
  }

  /** For a fixed date, injecting twice is the same as injecting once. */
  lemma InjectIdempotent(md: string, today: string)
    requires IsDateStamp(today)
    ensures InjectMetadata(InjectMetadata(md, today), today) == InjectMetadata(md, today)
  {
    InjectLeavesNoPlaceholder(md, today);
    InjectWithoutPlaceholders(InjectMetadata(md, today), today);
  }

  /* ------------------------------ createPreview ------------------------------ */

  const DEFAULT_PREVIEW_LENGTH: nat := 500
  const ELLIPSIS: char := '\U{2026}'

  /** The class `[#_*`>-]` of Markdown symbols the preview drops. */
  predicate IsMark(c: char) {
    c == '#' || c == '_' || c == '*' || c == '`' || c == '>' || c == '-'
  }

  /** The class `\n` of the first collapsing pass. */
  predicate IsNewline(c: char) {
    c == '\n'
  }

  /** `s.replace(/[#_*`>-]/g, "")`. */
  function RemoveMarks(s: string): (r: string)
    ensures |r| <= |s|
    ensures forall i :: 0 <= i < |r| ==> !IsMark(r[i])
    ensures forall c :: c in r ==> c in s
    ensures (forall i :: 0 <= i < |s| ==> !IsMark(s[i])) ==> r == s
  {
    if s == [] then []
    else
      var rest := RemoveMarks(s[1..]);
      assert forall c :: c in s[1..] ==> c in s;
      if IsMark(s[0]) then rest else [s[0]] + rest
  }

  /** Marks are dropped one character at a time: each part of a text loses its own marks and nothing else. */
  lemma {:induction false} RemoveMarksAppend(a: string, b: string)
    ensures RemoveMarks(a + b) == RemoveMarks(a) + RemoveMarks(b)
    decreases |a|
  {
    if a == [] {
      assert a + b == b;
    } else {
      assert (a + b)[1..] == a[1..] + b;
      RemoveMarksAppend(a[1..], b);
    }
  }

  /** A single mark disappears and any other single character stays. */
  lemma RemoveMarksOfChar(c: char)
    ensures RemoveMarks([c]) == if IsMark(c) then [] else [c]
  {
    assert [c][1..] == [];
  }

  /** The characters of `s` that are not white space, in order: the words of a text without its spacing. */
  function NonSpace(s: string): string {
    if s == [] then [] else (if IsSpace(s[0]) then [] else [s[0]]) + NonSpace(s[1..])
  }

  /** The characters other than white space of a concatenation are those of each part, in order. */
  lemma {:induction false} NonSpaceAppend(a: string, b: string)
    ensures NonSpace(a + b) == NonSpace(a) + NonSpace(b)
    decreases |a|
  {
    if a == [] {
      assert a + b == b;
    } else {
      assert (a + b)[1..] == a[1..] + b;
      NonSpaceAppend(a[1..], b);
    }
  }

  /** A text that starts with a character other than white space keeps that character. */
  lemma NonSpaceOfWord(c: string)
    ensures c != [] && !IsSpace(c[0]) ==> NonSpace(c) != []
  {
  }

  /** A blank text has no characters other than white space. */
  lemma {:induction false} NonSpaceOfBlank(a: string)
    requires IsBlank(a)
    ensures NonSpace(a) == []
    decreases |a|
  {
    if a != [] {
      NonSpaceOfBlank(a[1..]);
    }
  }

  /** Collapsing runs of white space into single spaces keeps every other character, in order. */
  lemma {:induction false} ReplaceRunsKeepsText(s: string, inRun: char -> bool)
    requires forall c :: inRun(c) ==> IsSpace(c)
    ensures NonSpace(ReplaceRuns(s, inRun)) == NonSpace(s)
    decreases |s|
  {
    if s != [] {
      if inRun(s[0]) {
        var k := RunEnd(s, 0, inRun);
        ReplaceRunsKeepsText(s[k..], inRun);
        assert s == s[..k] + s[k..];
        NonSpaceAppend(s[..k], s[k..]);
        NonSpaceOfBlank(s[..k]);
        NonSpaceAppend([' '], ReplaceRuns(s[k..], inRun));
      } else {
        ReplaceRunsKeepsText(s[1..], inRun);
      }
    }
  }

  /** The text a preview is cut from: Markdown symbols dropped, white space collapsed to single spaces, then trimmed. */
  function Cleaned(markdown: string): (r: string)
    ensures |r| <= |markdown|
    ensures forall c :: c in r ==> c in markdown || c == ' '
  {
    Trim(ReplaceRuns(ReplaceRuns(RemoveMarks(markdown), IsNewline), IsSpace))
  }

  /** The cleaned text holds no Markdown symbol. */
  lemma CleanedHasNoMarks(markdown: string)
    ensures forall i :: 0 <= i < |Cleaned(markdown)| ==> !IsMark(Cleaned(markdown)[i])
  {
    var a := RemoveMarks(markdown);
    var d := ReplaceRuns(ReplaceRuns(a, IsNewline), IsSpace);
    var (lo, hi) := TrimBounds(d);
    var c := Cleaned(markdown);
    forall i | 0 <= i < |c| ensures !IsMark(c[i]) {
      assert c[i] == d[lo + i];
      assert d[lo + i] in d;
    }
  }

  /**
   * The cleaned text has no leading or trailing white space, no two white
   * space characters next to each other, and its only white space is the
   * plain space.
   */
  lemma CleanedSpacing(markdown: string)
    ensures var c := Cleaned(markdown);
      (c == [] || (!IsSpace(c[0]) && !IsSpace(c[|c| - 1])))
      && (forall i, j :: 0 <= i && j == i + 1 && j < |c| ==> !(IsSpace(c[i]) && IsSpace(c[j])))
      && (forall i :: 0 <= i < |c| ==> IsSpace(c[i]) ==> c[i] == ' ')
  {
    var d := ReplaceRuns(ReplaceRuns(RemoveMarks(markdown), IsNewline), IsSpace);
    var (lo, hi) := TrimBounds(d);
    var c := Cleaned(markdown);
    assert forall i :: 0 <= i < |c| ==> c[i] == d[lo + i];
  }

  /** Trimming loses only white space. */
  lemma TrimKeepsWords(d: string)
    ensures NonSpace(Trim(d)) == NonSpace(d)
  {
    var (lo, hi) := TrimBounds(d);
    var head, mid, tail := d[..lo], d[lo..hi], d[hi..];
    assert IsBlank(head) by {
      forall i | 0 <= i < |head| ensures IsSpace(head[i]) { assert head[i] == d[i]; }
    }
    assert IsBlank(tail) by {
      forall i | 0 <= i < |tail| ensures IsSpace(tail[i]) { assert tail[i] == d[hi + i]; }
    }
    assert d[..hi] == head + mid;
    assert d == d[..hi] + tail;
    NonSpaceAppend(head, mid);
    NonSpaceAppend(d[..hi], tail);
    NonSpaceOfBlank(head);
    NonSpaceOfBlank(tail);
  }

  /** Cleaning loses only Markdown symbols and spacing: the other characters all survive, in order. */
  lemma CleanedKeepsWords(markdown: string)
    ensures NonSpace(Cleaned(markdown)) == NonSpace(RemoveMarks(markdown))
  {
    var a := RemoveMarks(markdown);
    var b := ReplaceRuns(a, IsNewline);
    ReplaceRunsKeepsText(a, IsNewline);
    ReplaceRunsKeepsText(b, IsSpace);
    TrimKeepsWords(ReplaceRuns(b, IsSpace));
  }

  /** Text of which every character is kept by cleaning: no Markdown symbol, no white space. */
  predicate Plain(w: string) {
    forall i :: 0 <= i < |w| ==> !IsMark(w[i]) && !IsSpace(w[i])
  }

  /** Newline runs inside a gap of white space leave a gap of white space. */
  lemma NewlinesInGap(x: string)
    requires x != [] && IsBlank(x)
    ensures var g := ReplaceRuns(x, IsNewline); g != [] && IsBlank(g)
  {
    var g := ReplaceRuns(x, IsNewline);
    forall i | 0 <= i < |g| ensures IsSpace(g[i]) {
      assert g[i] in g;
      if g[i] != ' ' {
        var j :| 0 <= j < |x| && x[j] == g[i];
      }
    }
  }

  /** Words around a gap of white space hold no Markdown symbol. */
  lemma TwoWordsHaveNoMarks(w1: string, x: string, w2: string)
    requires Plain(w1) && Plain(w2) && IsBlank(x)
    ensures RemoveMarks(w1 + x + w2) == w1 + x + w2
  {
    var m := w1 + x + w2;
    forall i | 0 <= i < |m| ensures !IsMark(m[i]) {
      if i < |w1| {
        assert m[i] == w1[i];
      } else if i < |w1| + |x| {
        assert m[i] == x[i - |w1|];
      } else {
        assert m[i] == w2[i - |w1| - |x|];
      }
    }
  }

  /** The newline pass turns the gap between two words into another, non-empty gap. */
  lemma NewlinePassOfTwoWords(w1: string, x: string, w2: string)
    requires Plain(w1) && w2 != [] && Plain(w2)
    requires x != [] && IsBlank(x)
    ensures var g := ReplaceRuns(x, IsNewline);
      g != [] && IsBlank(g) && ReplaceRuns(w1 + x + w2, IsNewline) == w1 + g + w2
  {
    ReplaceRunsSplit(w1 + x, w2, IsNewline);
    ReplaceRunsKeepsWord(w1, x, IsNewline);
    ReplaceRunsKeepsWord(w2, [], IsNewline);
    assert w2 + [] == w2;
    NewlinesInGap(x);
  }

  /** The white-space pass turns a non-empty gap between two words into one space. */
  lemma SpacePassOfTwoWords(w1: string, g: string, w2: string)
    requires Plain(w1) && w2 != [] && Plain(w2)
    requires g != [] && IsBlank(g)
    ensures ReplaceRuns(w1 + g + w2, IsSpace) == w1 + " " + w2
  {
    assert w1 + g + w2 == w1 + (g + w2);
    ReplaceRunsKeepsWord(w1, g + w2, IsSpace);
    ReplaceRunsOfRun(g, w2, IsSpace);
    ReplaceRunsKeepsWord(w2, [], IsSpace);
    assert w2 + [] == w2;
  }

  /**
   * Two words separated by any white space, newlines included, are cleaned
   * to the two words separated by one space.
   */
  lemma CleanedOfTwoWords(w1: string, x: string, w2: string)
    requires w1 != [] && Plain(w1) && w2 != [] && Plain(w2)
    requires x != [] && IsBlank(x)
    ensures Cleaned(w1 + x + w2) == w1 + " " + w2
  {
    TwoWordsHaveNoMarks(w1, x, w2);
    NewlinePassOfTwoWords(w1, x, w2);
    SpacePassOfTwoWords(w1, ReplaceRuns(x, IsNewline), w2);
    TrimOfTrimmed(w1 + " " + w2);
  }

  /**
   * `createPreview(markdown, length)`: the cleaned text, or its first
   * `length` characters followed by one ellipsis when it is longer.
   */
  function CreatePreview(markdown: string, length: nat): (r: string)
    ensures |r| <= length + 1
    ensures |r| > length <==> |Cleaned(markdown)| > length
    ensures |Cleaned(markdown)| <= length ==> r == Cleaned(markdown)
    ensures |Cleaned(markdown)| > length ==>
      |r| == length + 1 && r[..length] == Cleaned(markdown)[..length] && r[length] == ELLIPSIS
  {
    var cleaned := Cleaned(markdown);
    if |cleaned| > length then cleaned[..length] + [ELLIPSIS] else cleaned
  }

  /** Markdown made only of symbols and white space, the empty text included, previews as the empty text. */
  lemma PreviewOfSymbolsOnly(markdown: string, length: nat)
    requires forall i :: 0 <= i < |markdown| ==> IsMark(markdown[i]) || IsSpace(markdown[i])
    ensures CreatePreview(markdown, length) == []
  {
    var a := RemoveMarks(markdown);
    assert IsBlank(a) by {
      forall i | 0 <= i < |a| ensures IsSpace(a[i]) {
        assert a[i] in markdown;
      }
    }
    NonSpaceOfBlank(a);
    CleanedKeepsWords(markdown);
    CleanedSpacing(markdown);
    NonSpaceOfWord(Cleaned(markdown));
  }

  /** The preview line of a listed post (`createPreview(injectMetadata(post.final_post))`). */
  function PostPreview(post: BlogPost, today: string): (r: string)
    ensures |r| <= DEFAULT_PREVIEW_LENGTH + 1
  {
    CreatePreview(InjectMetadata(post.finalPost, today), DEFAULT_PREVIEW_LENGTH)
  }

  /* ------------------------------ listing ------------------------------ */

  /** `data.reverse()`: the collaborator lists oldest first, the page shows newest first. */
  function Reverse<T>(s: seq<T>): (r: seq<T>)
    ensures |r| == |s|
    ensures forall i :: 0 <= i < |s| ==> r[i] == s[|s| - 1 - i]
  {
    if s == [] then [] else Reverse(s[1..]) + [s[0]]
  }

  /** Reversal shows every fetched post exactly as often as it was fetched. */
  lemma {:induction false} ReverseSameElements<T>(s: seq<T>)
    ensures multiset(Reverse(s)) == multiset(s)
    decreases |s|
  {
    if s != [] {
      ReverseSameElements(s[1..]);
      assert s == [s[0]] + s[1..];
    }
  }

  /** `post.seo?.title || post.topic`: a missing or empty title falls back to the topic. */
  function DisplayTitle(post: BlogPost): (r: string)
    ensures r == post.topic || (post.seo.Some? && post.seo.value.title == Some(r) && r != [])
    ensures post.seo.Some? && post.seo.value.title.Some? && post.seo.value.title.value != [] ==> r == post.seo.value.title.value
    ensures r == [] ==> post.topic == []
  {
    if post.seo.Some? && post.seo.value.title.Some? && post.seo.value.title.value != [] then
      post.seo.value.title.value
    else
      post.topic
  }

  /** `expandedId === post.id`. */
  predicate IsExpanded(expandedId: Option<string>, post: BlogPost) {
    expandedId == Some(post.id)
  }

  /** The positions of the listed posts that show their full article. */
  function ExpandedIndices(blogs: seq<BlogPost>, expandedId: Option<string>): set<nat> {
    set i: nat | i < |blogs| && IsExpanded(expandedId, blogs[i])
  }

  /** When the listed posts have distinct ids, at most one of them is expanded. */
  lemma AtMostOneExpanded(blogs: seq<BlogPost>, expandedId: Option<string>)
    requires forall i, j :: 0 <= i < j < |blogs| ==> blogs[i].id != blogs[j].id
    ensures |ExpandedIndices(blogs, expandedId)| <= 1
  {
    var e := ExpandedIndices(blogs, expandedId);
    if e != {} {
      var k :| k in e;
      assert e == {k};
    }
  }

  /** The state of the articles page. */
  class ArticlesPage {
    var blogs: seq<BlogPost>
    var loading: bool
    var expandedId: Option<string>

    /** The page before the listing request settles. */
    constructor ()
      ensures blogs == [] && loading && expandedId == None
    {
      blogs := [];
      loading := true;
      expandedId := None;
    }

    /**
     * `loadBlogs` once its request settles: `fetched` is the parsed array, or
     * `None` when the request or the parsing threw (the error is only logged).
     * Either way loading ends.
     */
    method FinishLoading(fetched: Option<seq<BlogPost>>)
      modifies this`blogs, this`loading
      ensures !loading
      ensures fetched.Some? ==> blogs == Reverse(fetched.value)
      ensures fetched.None? ==> blogs == old(blogs)
    {
      if fetched.Some? {
        blogs := Reverse(fetched.value);
      }
      loading := false;
    }

    /** The Read/Hide button of `post`: it collapses the post if it is the expanded one and expands it otherwise. */
    method Toggle(post: BlogPost)
      modifies this`expandedId
      ensures old(IsExpanded(expandedId, post)) ==> expandedId == None
      ensures !old(IsExpanded(expandedId, post)) ==> expandedId == Some(post.id)
      ensures IsExpanded(expandedId, post) == !old(IsExpanded(expandedId, post))
      ensures forall other: BlogPost :: other.id != post.id ==> !IsExpanded(expandedId, other)
    {
      expandedId := if IsExpanded(expandedId, post) then None else Some(post.id);
    }
  }
}
