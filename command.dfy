/**
  The command sanitizer: a launch command written over several lines with
  backslash continuations becomes the argument vector of the process to start.
  A backslash immediately before a line break joins the two lines with a space;
  the joined text is then cut into words at whitespace, where a single- or
  double-quoted part belongs to the word around it and may hold whitespace.
 */
module Command {
  import opened Wrappers
  import opened Text
  import opened Config

  // ---------------------------------------------------------------------------
  // Line continuations

  /** No backslash stands immediately before a line break. */
  predicate NoContinuation(s: string) {
    forall i :: 0 <= i < |s| - 1 ==> !(s[i] == '\\' && s[i + 1] == '\n')
  }

  /** Replaces each backslash-line-break pair, scanning left to right, by one space. */
  function JoinContinuations(s: string): (r: string)
    ensures NoContinuation(r)
    ensures |s| > 0 ==> |r| > 0
    decreases |s|
  {
    if |s| >= 2 && s[0] == '\\' && s[1] == '\n' then " " + JoinContinuations(s[2..])
    else if s == [] then []
    else [s[0]] + JoinContinuations(s[1..])
  }

  /** Text without continuations is left exactly as it is. */
  lemma {:induction false} JoinContinuationsIdentity(s: string)
    requires NoContinuation(s)
    ensures JoinContinuations(s) == s
    decreases |s|
  {
    if s != [] {
      assert NoContinuation(s[1..]) by {
        forall i | 0 <= i < |s[1..]| - 1 ensures !(s[1..][i] == '\\' && s[1..][i + 1] == '\n') {
          assert s[1..][i] == s[i + 1] && s[1..][i + 1] == s[i + 2];
        }
      }
      JoinContinuationsIdentity(s[1..]);
      assert s == [s[0]] + s[1..];
    }
  }

  /** Joining continuations a second time changes nothing. */
  lemma JoinContinuationsIdempotent(s: string)
    ensures JoinContinuations(JoinContinuations(s)) == JoinContinuations(s)
  {
    JoinContinuationsIdentity(JoinContinuations(s));
  }

  /** Two texts join independently unless the first ends in a backslash and the second starts a line. */
  lemma {:induction false} JoinContinuationsAppend(a: string, b: string)
    requires !(a != [] && a[|a| - 1] == '\\' && b != [] && b[0] == '\n')
    ensures JoinContinuations(a + b) == JoinContinuations(a) + JoinContinuations(b)
    decreases |a|
  {
    if a == [] {
      assert a + b == b;
    } else if |a| >= 2 && a[0] == '\\' && a[1] == '\n' {
      assert (a + b)[2..] == a[2..] + b;
      JoinContinuationsAppend(a[2..], b);
    } else {
      assert (a + b)[1..] == a[1..] + b;
      if |a| == 1 && a[0] == '\\' {
        assert a[1..] + b == b;
      }
      JoinContinuationsAppend(a[1..], b);
    }
  }

  /** A backslash-line-break pair becomes one space; both sides are joined on their own. */
  lemma JoinContinuationsAt(a: string, b: string)
    ensures JoinContinuations(a + "\\\n" + b) == JoinContinuations(a) + " " + JoinContinuations(b)
  {
    var tail := "\\\n" + b;
    assert a + "\\\n" + b == a + tail;
    JoinContinuationsAppend(a, tail);
    assert tail[2..] == b;
  }

  // ---------------------------------------------------------------------------
  // Word splitting

  datatype CommandError = UnterminatedQuote

  /** Between words, inside an unquoted word, inside single quotes, inside double quotes. */
  datatype LexState = Blank | InWord | InSingle | InDouble

  /** The characters that separate words, as in POSIX field splitting with the
      default separators: space, tab and line feed. */
  predicate IsBlank(c: char) {
    c == ' ' || c == '\t' || c == '\n'
  }

  predicate AllBlank(s: string) {
    forall i :: 0 <= i < |s| ==> IsBlank(s[i])
  }

  predicate IsQuote(c: char) {
    c == '\'' || c == '"'
  }

  /** The words of `s`, scanned in `state` with the current word `word` and the
      finished words `words` so far. */
  function Lex(s: string, state: LexState, word: string, words: seq<string>): Result<seq<string>, CommandError>
    decreases |s|
  {
    if s == [] then
      match state
      case Blank => Ok(words)
      case InWord => Ok(words + [word])
      case InSingle => Err(UnterminatedQuote)
      case InDouble => Err(UnterminatedQuote)
    else
      var c, rest := s[0], s[1..];
      match state
      case Blank =>
        if IsBlank(c) then Lex(rest, Blank, [], words)
        else if c == '\'' then Lex(rest, InSingle, [], words)
        else if c == '"' then Lex(rest, InDouble, [], words)
        else Lex(rest, InWord, [c], words)
      case InWord =>
        if IsBlank(c) then Lex(rest, Blank, [], words + [word])
        else if c == '\'' then Lex(rest, InSingle, word, words)
        else if c == '"' then Lex(rest, InDouble, word, words)
        else Lex(rest, InWord, word + [c], words)
      case InSingle =>
        if c == '\'' then Lex(rest, InWord, word, words) else Lex(rest, InSingle, word + [c], words)
      case InDouble =>
        if c == '"' then Lex(rest, InWord, word, words) else Lex(rest, InDouble, word + [c], words)
  }

  function Tokenize(s: string): Result<seq<string>, CommandError> {
    Lex(s, Blank, [], [])
  }

  /** `SanitizedCommand`: the argument vector of the record's launch command.
      It fails exactly when the joined command leaves a quote open. */
  function SanitizedCommand(m: ModelConfig): (r: Result<seq<string>, CommandError>)
    ensures r.Err? <==> OpenQuote(JoinContinuations(m.cmd)).Some?
    ensures r.Err? ==> r.error == UnterminatedQuote
  {
    TokenizeFailsIffOpenQuote(JoinContinuations(m.cmd));
    Tokenize(JoinContinuations(m.cmd))
  }

  // ---------------------------------------------------------------------------
  // Reference reading: words separated by whitespace

  /** A word that needs no quoting: non-empty, without whitespace or quotes. */
  predicate Bare(w: string) {
    w != [] && forall i :: 0 <= i < |w| ==> !IsBlank(w[i]) && !IsQuote(w[i])
  }

  /** The words with the gaps around and between them: gaps[0] + words[0] + gaps[1] + ... + gaps[n]. */
  function Spaced(words: seq<string>, gaps: seq<string>): string
    requires |gaps| == |words| + 1
    decreases |words|
  {
    gaps[0] + (if words == [] then [] else words[0] + Spaced(words[1..], gaps[1..]))
  }

  /** Gaps are whitespace; those between two words are not empty. */
  predicate GoodGaps(gaps: seq<string>, n: nat) {
    |gaps| == n + 1 && forall i :: 0 <= i < |gaps| ==> AllBlank(gaps[i]) && (0 < i < n ==> gaps[i] != [])
  }

  lemma {:induction false} LexSkipsSpaces(sp: string, rest: string, words: seq<string>)
    requires AllBlank(sp)
    ensures Lex(sp + rest, Blank, [], words) == Lex(rest, Blank, [], words)
    decreases |sp|
  {
    if sp == [] {
      assert sp + rest == rest;
    } else {
      assert (sp + rest)[1..] == sp[1..] + rest;
      LexSkipsSpaces(sp[1..], rest, words);
    }
  }

  lemma {:induction false} LexExtendsWord(w: string, rest: string, word: string, words: seq<string>)
    requires forall i :: 0 <= i < |w| ==> !IsBlank(w[i]) && !IsQuote(w[i])
    ensures Lex(w + rest, InWord, word, words) == Lex(rest, InWord, word + w, words)
    decreases |w|
  {
    if w == [] {
      assert w + rest == rest && word + w == word;
    } else {
      assert (w + rest)[1..] == w[1..] + rest;
      LexExtendsWord(w[1..], rest, word + [w[0]], words);
      assert word + [w[0]] + w[1..] == word + w;
    }
  }

  /** A whitespace character ends the current word. */
  lemma LexEndsWord(s: string, word: string, words: seq<string>)
    requires s != [] && IsBlank(s[0])
    ensures Lex(s, InWord, word, words) == Lex(s, Blank, [], words + [word])
  {
  }

  /** A bare word read from between words becomes the current word. */
  lemma LexBareWord(w: string, rest: string, done: seq<string>)
    requires Bare(w)
    ensures Lex(w + rest, Blank, [], done) == Lex(rest, InWord, w, done)
  {
    assert (w + rest)[1..] == w[1..] + rest;
    LexExtendsWord(w[1..], rest, [w[0]], done);
    assert [w[0]] + w[1..] == w;
  }

  lemma SpacedHead(words: seq<string>, gaps: seq<string>, rest: string)
    requires |gaps| == |words| + 1 && words != []
    ensures Spaced(words, gaps) + rest == gaps[0] + (words[0] + (Spaced(words[1..], gaps[1..]) + rest))
  {
  }

  lemma GoodGapsTail(gaps: seq<string>, n: nat)
    requires GoodGaps(gaps, n) && n > 0
    ensures GoodGaps(gaps[1..], n - 1)
  {
    forall i | 0 <= i < |gaps[1..]| ensures AllBlank(gaps[1..][i]) && (0 < i < n - 1 ==> gaps[1..][i] != []) {
      assert gaps[1..][i] == gaps[i + 1];
    }
  }

  /** Words separated by whitespace, none quoted, come out as themselves; text after them
      is read on from between words, provided the layout ends in whitespace. */
  lemma {:induction false} LexSpaced(words: seq<string>, gaps: seq<string>, rest: string, done: seq<string>)
    requires forall w :: w in words ==> Bare(w)
    requires GoodGaps(gaps, |words|)
    requires words == [] || gaps[|words|] != [] || rest == []
    ensures Lex(Spaced(words, gaps) + rest, Blank, [], done) == Lex(rest, Blank, [], done + words)
    decreases |words|
  {
    if words == [] {
      assert Spaced(words, gaps) == gaps[0] + [] == gaps[0];
      LexSkipsSpaces(gaps[0], rest, done);
      assert done + words == done;
    } else {
      var w := words[0];
      var more := Spaced(words[1..], gaps[1..]) + rest;
      assert w in words;
      SpacedHead(words, gaps, rest);
      LexSkipsSpaces(gaps[0], w + more, done);
      LexBareWord(w, more, done);
      GoodGapsTail(gaps, |words|);
      assert forall v :: v in words[1..] ==> v in words;
      assert done + [w] + words[1..] == done + words;
      if words[1..] == [] {
        assert Spaced(words[1..], gaps[1..]) == gaps[1] + [];
        assert more == gaps[1] + rest;
        assert words == [w];
        if gaps[1] == [] {
          assert more == [];
        } else {
          LexEndsWord(more, w, done);
          LexSkipsSpaces(gaps[1], rest, done + [w]);
          assert Lex(more, InWord, w, done) == Lex(rest, Blank, [], done + words);
          assert Lex(Spaced(words, gaps) + rest, Blank, [], done) == Lex(w + more, Blank, [], done);
        }
      } else {
        SpacedHead(words[1..], gaps[1..], rest);
        assert gaps[1] != [];
        assert IsBlank(more[0]);
        LexEndsWord(more, w, done);
        assert gaps[1..][|words| - 1] == gaps[|words|];
        LexSpaced(words[1..], gaps[1..], rest, done + [w]);
      }
    }
  }

  /** Round trip: unquoted words laid out with any whitespace tokenize back to the words. */
  lemma TokenizeSpaced(words: seq<string>, gaps: seq<string>)
    requires forall w :: w in words ==> Bare(w)
    requires GoodGaps(gaps, |words|)
    ensures Tokenize(Spaced(words, gaps)) == Ok(words)
  {
    LexSpaced(words, gaps, [], []);
    assert Spaced(words, gaps) + [] == Spaced(words, gaps);
    assert [] + words == words;
  }

  /** Round trip through the sanitizer: a launch command made of unquoted words in
      whitespace gaps, with no continuation, gives back exactly those words. */
  lemma SanitizedCommandSpaced(m: ModelConfig, words: seq<string>, gaps: seq<string>)
    requires forall w :: w in words ==> Bare(w)
    requires GoodGaps(gaps, |words|)
    requires m.cmd == Spaced(words, gaps) && NoContinuation(m.cmd)
    ensures SanitizedCommand(m) == Ok(words)
  {
    JoinContinuationsIdentity(m.cmd);
    TokenizeSpaced(words, gaps);
  }

  /** Splitting a line at a continuation changes nothing when the line already
      had whitespace there: the continuation reads as one more space. */
  lemma SanitizedCommandContinued(m: ModelConfig, n: ModelConfig, a: string, b: string)
    requires NoContinuation(a) && NoContinuation(b)
    requires m.cmd == a + "\\\n" + b && n.cmd == a + " " + b
    ensures SanitizedCommand(m) == SanitizedCommand(n)
  {
    JoinContinuationsAt(a, b);
    JoinContinuationsIdentity(a);
    JoinContinuationsIdentity(b);
    JoinNoContinuation(a, b);
    JoinContinuationsIdentity(a + " " + b);
  }

  /** Joining two texts without continuations by a space makes none. */
  lemma JoinNoContinuation(a: string, b: string)
    requires NoContinuation(a) && NoContinuation(b)
    ensures NoContinuation(a + " " + b)
  {
    var s := a + " " + b;
    forall i | 0 <= i < |s| - 1 ensures !(s[i] == '\\' && s[i + 1] == '\n') {
      if i < |a| - 1 {
        assert s[i] == a[i] && s[i + 1] == a[i + 1];
      } else if i == |a| - 1 {
        assert s[i + 1] == ' ';
      } else if i == |a| {
        assert s[i] == ' ';
      } else {
        assert s[i] == b[i - |a| - 1] && s[i + 1] == b[i - |a|];
      }
    }
  }

  // ---------------------------------------------------------------------------
  // Quoting

  /** A quoted part adds its contents, whitespace included, to the current word. */
  lemma {:induction false} LexQuotedPart(q: char, inner: string, rest: string, word: string, words: seq<string>)
    requires IsQuote(q) && q !in inner
    ensures Lex([q] + inner + [q] + rest, InWord, word, words) == Lex(rest, InWord, word + inner, words)
  {
    var st := if q == '\'' then InSingle else InDouble;
    assert ([q] + inner + [q] + rest)[1..] == inner + ([q] + rest);
    LexInsideQuotes(q, st, inner, [q] + rest, word, words);
  }

  /** Inside quotes every character other than the closing quote belongs to the word. */
  lemma {:induction false} LexInsideQuotes(q: char, st: LexState, inner: string, rest: string, word: string, words: seq<string>)
    requires (q == '\'' && st == InSingle) || (q == '"' && st == InDouble)
    requires q !in inner && rest != [] && rest[0] == q
    ensures Lex(inner + rest, st, word, words) == Lex(rest[1..], InWord, word + inner, words)
    decreases |inner|
  {
    if inner == [] {
      assert inner + rest == rest && word + inner == word;
    } else {
      assert inner[0] in inner;
      assert forall c :: c in inner[1..] ==> c in inner;
      assert (inner + rest)[1..] == inner[1..] + rest;
      LexInsideQuotes(q, st, inner[1..], rest, word + [inner[0]], words);
      assert word + [inner[0]] + inner[1..] == word + inner;
    }
  }

  /** A quoted part glued to a bare word belongs to that word, whitespace included. */
  lemma TokenizeQuotedArgument(w: string, q: char, inner: string)
    requires Bare(w) && IsQuote(q) && q !in inner
    ensures Tokenize(w + [q] + inner + [q]) == Ok([w + inner])
  {
    var part := [q] + inner + [q];
    assert w + [q] + inner + [q] == w + part;
    LexBareWord(w, part, []);
    assert part + [] == part;
    LexQuotedPart(q, inner, [], w, []);
    assert [] + [w + inner] == [w + inner];
  }

  // ---------------------------------------------------------------------------
  // Reference reading of quotes: which quote, if any, is still open at the end

  /** The quote still open after reading `s` when `open` was open before it:
      outside quotes a quote character opens, inside only the same one closes. */
  function PendingQuote(s: string, open: Option<char>): Option<char>
    decreases |s|
  {
    if s == [] then open
    else match open
      case None => PendingQuote(s[1..], if IsQuote(s[0]) then Some(s[0]) else None)
      case Some(q) => PendingQuote(s[1..], if s[0] == q then None else open)
  }

  /** The quote left open at the end of the command, if any. */
  function OpenQuote(s: string): Option<char> {
    PendingQuote(s, None)
  }

  /** The quote a lexer state is inside of. */
  function QuoteOf(st: LexState): Option<char> {
    match st
    case InSingle => Some('\'')
    case InDouble => Some('"')
    case _ => None
  }

  /** The lexer fails exactly when a quote is left open, whatever word it is building. */
  lemma {:induction false} LexFailsIffOpen(s: string, st: LexState, word: string, words: seq<string>)
    ensures Lex(s, st, word, words).Err? <==> PendingQuote(s, QuoteOf(st)).Some?
    decreases |s|
  {
    if s != [] {
      var c, rest := s[0], s[1..];
      match st
      case Blank =>
        if IsBlank(c) { LexFailsIffOpen(rest, Blank, [], words); }
        else if c == '\'' { LexFailsIffOpen(rest, InSingle, [], words); }
        else if c == '"' { LexFailsIffOpen(rest, InDouble, [], words); }
        else { LexFailsIffOpen(rest, InWord, [c], words); }
      case InWord =>
        if IsBlank(c) { LexFailsIffOpen(rest, Blank, [], words + [word]); }
        else if c == '\'' { LexFailsIffOpen(rest, InSingle, word, words); }
        else if c == '"' { LexFailsIffOpen(rest, InDouble, word, words); }
        else { LexFailsIffOpen(rest, InWord, word + [c], words); }
      case InSingle =>
        if c == '\'' { LexFailsIffOpen(rest, InWord, word, words); }
        else { LexFailsIffOpen(rest, InSingle, word + [c], words); }
      case InDouble =>
        if c == '"' { LexFailsIffOpen(rest, InWord, word, words); }
        else { LexFailsIffOpen(rest, InDouble, word + [c], words); }
    }
  }

  /** Splitting a command fails exactly when it leaves a quote open; a command
      whose quotes all close always splits. */
  lemma TokenizeFailsIffOpenQuote(s: string)
    ensures Tokenize(s).Err? <==> OpenQuote(s).Some?
    ensures Tokenize(s).Err? ==> Tokenize(s).error == UnterminatedQuote
  {
    LexFailsIffOpen(s, Blank, [], []);
  }

  /** Unquoted text moves the lexer only between `Blank` and `InWord`. */
  lemma {:induction false} LexQuoteFree(s: string, rest: string, st0: LexState, word0: string, words0: seq<string>)
    returns (st: LexState, word: string, words: seq<string>)
    requires forall i :: 0 <= i < |s| ==> !IsQuote(s[i])
    requires st0 == Blank || st0 == InWord
    ensures st == Blank || st == InWord
    ensures Lex(s + rest, st0, word0, words0) == Lex(rest, st, word, words)
    decreases |s|
  {
    if s == [] {
      assert s + rest == rest;
      st, word, words := st0, word0, words0;
    } else {
      assert (s + rest)[1..] == s[1..] + rest;
      var c := s[0];
      var st1, word1, words1;
      if IsBlank(c) {
        st1, word1 := Blank, [];
        words1 := if st0 == InWord then words0 + [word0] else words0;
      } else {
        st1, words1 := InWord, words0;
        word1 := if st0 == InWord then word0 + [c] else [c];
      }
      st, word, words := LexQuoteFree(s[1..], rest, st1, word1, words1);
    }
  }

  /** A command without quotes always tokenizes. */
  lemma TokenizeQuoteFree(s: string)
    requires forall i :: 0 <= i < |s| ==> !IsQuote(s[i])
    ensures Tokenize(s).Ok?
  {
    assert s + [] == s;
    var st, word, words := LexQuoteFree(s, [], Blank, [], []);
  }

  // ---------------------------------------------------------------------------
  // The documented example: a command over three lines

  lemma NoBackslash(s: string)
    requires '\\' !in s
    ensures NoContinuation(s)
  {
    forall i | 0 <= i < |s| - 1 ensures s[i] != '\\' {
      assert s[i] in s;
    }
  }

  /** Two words in their gaps, written out. */
  lemma SpacedTwo(words: seq<string>, gaps: seq<string>)
    requires |words| == 2 && |gaps| == 3
    ensures Spaced(words, gaps) == gaps[0] + (words[0] + (gaps[1] + (words[1] + gaps[2])))
  {
    assert words[1..][1..] == [] && gaps[1..][1..] == [gaps[2]];
    assert Spaced(words[1..][1..], gaps[1..][1..]) == gaps[2] + [];
  }

  /** Three lines joined by continuations become one line with a space at each join. */
  lemma JoinThreeLines(cmd: string, a: string, b: string, c: string)
    requires NoContinuation(a) && NoContinuation(b) && NoContinuation(c)
    requires cmd == a + "\\\n" + b + "\\\n" + c
    ensures JoinContinuations(cmd) == a + " " + b + " " + c
  {
    assert cmd == a + "\\\n" + (b + "\\\n" + c);
    JoinContinuationsAt(a, b + "\\\n" + c);
    JoinContinuationsAt(b, c);
    JoinContinuationsIdentity(a);
    JoinContinuationsIdentity(b);
    JoinContinuationsIdentity(c);
  }

  lemma ExampleLines(a: string, b: string, c: string)
    requires a == "python model1.py " && b == "    --arg1 value1 " && c == "    --arg2 value2"
    ensures NoContinuation(a) && NoContinuation(b) && NoContinuation(c)
  {
    NoBackslash(a);
    NoBackslash(b);
    NoBackslash(c);
  }

  /** Three layouts one after another, each of the first two ending in whitespace. */
  lemma TokenizeThreeLayouts(x: string, y: string, z: string,
                             w1: seq<string>, g1: seq<string>, w2: seq<string>, g2: seq<string>,
                             w3: seq<string>, g3: seq<string>)
    requires forall w :: w in w1 ==> Bare(w)
    requires forall w :: w in w2 ==> Bare(w)
    requires forall w :: w in w3 ==> Bare(w)
    requires GoodGaps(g1, |w1|) && GoodGaps(g2, |w2|) && GoodGaps(g3, |w3|)
    requires g1[|w1|] != [] && g2[|w2|] != []
    requires x == Spaced(w1, g1) && y == Spaced(w2, g2) && z == Spaced(w3, g3)
    ensures Tokenize(x + (y + z)) == Ok(w1 + w2 + w3)
  {
    var d1, d2 := w1, w1 + w2;
    LexSpaced(w1, g1, y + z, []);
    assert [] + w1 == d1;
    LexSpaced(w2, g2, z, d1);
    LexSpaced(w3, g3, [], d2);
    assert z + [] == z;
    assert Lex([], Blank, [], d2 + w3) == Ok(w1 + w2 + w3);
  }

  lemma ExampleFirstLine(line: string, words: seq<string>, gaps: seq<string>)
    requires line == "python model1.py " + " " && words == ["python", "model1.py"] && gaps == ["", " ", "  "]
    ensures Spaced(words, gaps) == line && GoodGaps(gaps, 2) && gaps[2] != []
  {
    SpacedTwo(words, gaps);
  }

  lemma ExampleSecondLine(line: string, words: seq<string>, gaps: seq<string>)
    requires line == "    --arg1 value1 " + " " && words == ["--arg1", "value1"] && gaps == ["    ", " ", "  "]
    ensures Spaced(words, gaps) == line && GoodGaps(gaps, 2) && gaps[2] != []
  {
    SpacedTwo(words, gaps);
  }

  lemma ExampleThirdLine(line: string, words: seq<string>, gaps: seq<string>)
    requires line == "    --arg2 value2" && words == ["--arg2", "value2"] && gaps == ["    ", " ", ""]
    ensures Spaced(words, gaps) == line && GoodGaps(gaps, 2)
  {
    SpacedTwo(words, gaps);
  }

  lemma ExampleWords(w1: seq<string>, w2: seq<string>, w3: seq<string>)
    requires w1 == ["python", "model1.py"] && w2 == ["--arg1", "value1"] && w3 == ["--arg2", "value2"]
    ensures forall w :: w in w1 ==> Bare(w)
    ensures forall w :: w in w2 ==> Bare(w)
    ensures forall w :: w in w3 ==> Bare(w)
    ensures w1 + w2 + w3 == ["python", "model1.py", "--arg1", "value1", "--arg2", "value2"]
  {
  }

  /** The launch command over three lines with continuations becomes one argument vector. */
  lemma SanitizedCommandExample(m: ModelConfig)
    requires m.cmd == "python model1.py \\\n" + "    --arg1 value1 \\\n" + "    --arg2 value2"
    ensures SanitizedCommand(m) == Ok(["python", "model1.py", "--arg1", "value1", "--arg2", "value2"])
  {
    var a, b, c := "python model1.py ", "    --arg1 value1 ", "    --arg2 value2";
    ExampleLines(a, b, c);
    JoinThreeLines(m.cmd, a, b, c);
    assert a + " " + b + " " + c == (a + " ") + ((b + " ") + c);
    var w1, g1 := ["python", "model1.py"], ["", " ", "  "];
    var w2, g2 := ["--arg1", "value1"], ["    ", " ", "  "];
    var w3, g3 := ["--arg2", "value2"], ["    ", " ", ""];
    ExampleFirstLine(a + " ", w1, g1);
    ExampleSecondLine(b + " ", w2, g2);
    ExampleThirdLine(c, w3, g3);
    ExampleWords(w1, w2, w3);
    TokenizeThreeLayouts(a + " ", b + " ", c, w1, g1, w2, g2, w3, g3);
  }
}
