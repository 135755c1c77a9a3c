/**
  Macro substitution: a placeholder `${name}` is replaced by the value the macro
  table gives `name`. The replacement is one left-to-right pass: inserted values
  are not scanned again, and a placeholder whose name is not in the table is
  kept as written.
 */
module Macros {
  import opened Text

  /** The text with each `${name}` whose name the table knows replaced by its
      value. With an empty table nothing changes. */
  function Substitute(s: string, macros: map<string, string>): (r: string)
    ensures |macros| == 0 ==> r == s
    decreases |s|
  {
    if s == [] then []
    else
      var k := if |s| >= 2 && s[0] == '$' && s[1] == '{' then IndexOf(s[2..], '}') else -1;
      if k >= 0 && s[2..2 + k] in macros then macros[s[2..2 + k]] + Substitute(s[3 + k..], macros)
      else
        assert s == [s[0]] + s[1..];
        [s[0]] + Substitute(s[1..], macros)
  }

  /** A string seen as plain text and placeholders: the reference reading of a
      string that `Substitute` scans. */
  datatype Segment = Literal(text: string) | Reference(name: string)

  /** Plain text holds no `$`; a placeholder name holds neither `$` nor `}`. */
  predicate WellFormed(seg: Segment) {
    match seg
    case Literal(text) => '$' !in text
    case Reference(name) => '$' !in name && '}' !in name
  }

  function Placeholder(name: string): string {
    "${" + name + "}"
  }

  /** The configuration text the segments are written as. */
  function Render(segs: seq<Segment>): string
    decreases |segs|
  {
    if segs == [] then []
    else
      (match segs[0]
       case Literal(text) => text
       case Reference(name) => Placeholder(name))
      + Render(segs[1..])
  }

  /** What the segments mean once the macro table is applied: a known name
      becomes its value, verbatim; an unknown one stays a placeholder. */
  function Expand(segs: seq<Segment>, macros: map<string, string>): string
    decreases |segs|
  {
    if segs == [] then []
    else
      (match segs[0]
       case Literal(text) => text
       case Reference(name) => if name in macros then macros[name] else Placeholder(name))
      + Expand(segs[1..], macros)
  }

  /** Text without `$` passes through unchanged. */
  lemma {:induction false} SubstitutePlainPrefix(text: string, rest: string, macros: map<string, string>)
    requires '$' !in text
    ensures Substitute(text + rest, macros) == text + Substitute(rest, macros)
    decreases |text|
  {
    if text == [] {
      assert text + rest == rest;
    } else {
      var s := text + rest;
      assert s[0] == text[0] && text[0] in text;
      assert s[1..] == text[1..] + rest;
      assert forall c :: c in text[1..] ==> c in text;
      SubstitutePlainPrefix(text[1..], rest, macros);
      assert text == [text[0]] + text[1..];
    }
  }

  /** A placeholder at the front is replaced by its value, or kept when its name is unknown. */
  lemma SubstitutePlaceholderPrefix(name: string, rest: string, macros: map<string, string>)
    requires WellFormed(Reference(name))
    ensures Substitute(Placeholder(name) + rest, macros)
         == (if name in macros then macros[name] else Placeholder(name)) + Substitute(rest, macros)
  {
    PlaceholderScan(name, rest);
    if name !in macros {
      UnknownPlaceholder(name, rest, macros);
    }
  }

  lemma UnknownPlaceholder(name: string, rest: string, macros: map<string, string>)
    requires '$' !in name && '}' !in name && name !in macros
    ensures Substitute(Placeholder(name) + rest, macros) == Placeholder(name) + Substitute(rest, macros)
  {
    if |macros| != 0 {
      var s := Placeholder(name) + rest;
      var tail := "{" + name + "}";
      PlaceholderScan(name, rest);
      SubstituteCopies(s, macros);
      PlaceholderTail(name, rest);
      SubstitutePlainPrefix(tail, rest, macros);
    }
  }

  /** A placeholder is a `$` followed by text holding no `$`. */
  lemma PlaceholderTail(name: string, rest: string)
    requires '$' !in name
    ensures var tail := "{" + name + "}";
            '$' !in tail && Placeholder(name) == ['$'] + tail && (Placeholder(name) + rest)[1..] == tail + rest
  {
    var tail := "{" + name + "}";
    assert forall c :: c in tail ==> c == '{' || c in name || c == '}';
  }

  /** Where no known placeholder starts, the first character is copied. */
  lemma SubstituteCopies(s: string, macros: map<string, string>)
    requires s != []
    requires |s| >= 2 && s[0] == '$' && s[1] == '{' && IndexOf(s[2..], '}') >= 0 ==>
             s[2..2 + IndexOf(s[2..], '}')] !in macros
    ensures Substitute(s, macros) == [s[0]] + Substitute(s[1..], macros)
  {
  }

  /** A placeholder the table knows is replaced by its value, whatever its name
      holds besides `}` (a `$` included), and the rest is substituted on its own. */
  lemma SubstituteKnownPlaceholder(name: string, rest: string, macros: map<string, string>)
    requires '}' !in name && name in macros
    ensures Substitute(Placeholder(name) + rest, macros) == macros[name] + Substitute(rest, macros)
  {
    PlaceholderScan(name, rest);
  }

  /** A `$` that starts no placeholder the table knows (`$HOME`, an unclosed
      `${port`, `$$`), like any other character there, is copied as it is. */
  lemma SubstituteNoKnownPlaceholder(s: string, macros: map<string, string>)
    requires s != []
    requires forall name, rest :: s == Placeholder(name) + rest && '}' !in name ==> name !in macros
    ensures Substitute(s, macros) == [s[0]] + Substitute(s[1..], macros)
  {
    if |macros| != 0 && |s| >= 2 && s[0] == '$' && s[1] == '{' && IndexOf(s[2..], '}') >= 0 {
      var k := IndexOf(s[2..], '}');
      var name, rest := s[2..2 + k], s[3 + k..];
      assert s[2..][..k] == name;
      assert s == Placeholder(name) + rest;
    }
    if |macros| != 0 {
      SubstituteCopies(s, macros);
    }
  }

  /** Where the scan of a leading placeholder finds its name and what follows. */
  lemma PlaceholderScan(name: string, rest: string)
    requires '}' !in name
    ensures var s := Placeholder(name) + rest;
            |s| >= 2 && s[0] == '$' && s[1] == '{' && IndexOf(s[2..], '}') == |name|
            && s[2..2 + |name|] == name && s[3 + |name|..] == rest
  {
    var s := Placeholder(name) + rest;
    assert s[2..] == name + ['}'] + rest;
    IndexOfFirst(name, '}', rest);
  }

  /** `Substitute` scanning the rendered text computes the expansion of the segments. */
  lemma {:induction false} SubstituteRendered(segs: seq<Segment>, macros: map<string, string>)
    requires forall seg :: seg in segs ==> WellFormed(seg)
    ensures Substitute(Render(segs), macros) == Expand(segs, macros)
    decreases |segs|
  {
    if segs == [] {
    } else {
      assert segs[0] in segs;
      assert forall seg :: seg in segs[1..] ==> seg in segs;
      SubstituteRendered(segs[1..], macros);
      match segs[0]
      case Literal(text) =>
        SubstitutePlainPrefix(text, Render(segs[1..]), macros);
      case Reference(name) =>
        SubstitutePlaceholderPrefix(name, Render(segs[1..]), macros);
    }
  }
}
