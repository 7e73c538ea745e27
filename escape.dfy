/** HTML escaping of user-controlled text (`esc`), and the decoding a
    browser applies when it reads escaped text back from markup. */
module Escape {
  import opened Wrappers

  /** The characters `esc` replaces. */
  predicate IsSpecial(c: char) {
    c == '&' || c == '<' || c == '>' || c == '"' || c == '\''
  }

  /** The characters that may open a tag or close an attribute value. */
  predicate IsMarkup(c: char) {
    c == '<' || c == '>' || c == '"' || c == '\''
  }

  /** The replacement for one character. */
  function Entity(c: char): (r: string)
    ensures |r| >= 1
    ensures forall i | 0 <= i < |r| :: !IsMarkup(r[i])
    ensures IsSpecial(c) <==> r[0] == '&'
    ensures !IsSpecial(c) ==> r == [c]
  {
    match c
    case '&' => "&amp;"
    case '<' => "&lt;"
    case '>' => "&gt;"
    case '"' => "&quot;"
    case '\'' => "&#39;"
    case _ => [c]
  }

  /** `esc` on a string: every character is replaced by its entity, in order. */
  function Esc(s: string): (r: string)
  {
    if s == [] then [] else Entity(s[0]) + Esc(s[1..])
  }

  /** `esc` on any value the script passes it: None stands for a missing
      (null or undefined) value; a falsy value yields the empty string. */
  function EscValue(v: Option<string>): (r: string)
    ensures (v.None? || v.value == []) ==> r == []
    ensures v.Some? ==> r == Esc(v.value)
  {
    if v.None? || v.value == [] then [] else Esc(v.value)
  }

  /** Escaping distributes over concatenation. */
  lemma {:induction false} EscConcat(a: string, b: string)
    ensures Esc(a + b) == Esc(a) + Esc(b)
  {
    if a == [] {
      assert a + b == b;
    } else {
      assert (a + b)[0] == a[0];
      assert (a + b)[1..] == a[1..] + b;
      EscConcat(a[1..], b);
      calc {
        Esc(a + b);
        Entity(a[0]) + Esc(a[1..] + b);
        Entity(a[0]) + (Esc(a[1..]) + Esc(b));
        (Entity(a[0]) + Esc(a[1..])) + Esc(b);
      }
    }
  }

  /** The output of `esc` never contains a raw `<`, `>`, `"` or `'`. */
  lemma {:induction false} EscHasNoMarkup(s: string)
    ensures forall i | 0 <= i < |Esc(s)| :: !IsMarkup(Esc(s)[i])
  {
    if s != [] {
      EscHasNoMarkup(s[1..]);
      var e, t := Entity(s[0]), Esc(s[1..]);
      assert Esc(s) == e + t;
      forall i | 0 <= i < |e + t| ensures !IsMarkup((e + t)[i]) {
        if i >= |e| { assert (e + t)[i] == t[i - |e|]; }
      }
    }
  }

  /** Text free of the five special characters is returned unchanged. */
  lemma {:induction false} EscPlain(s: string)
    requires forall i | 0 <= i < |s| :: !IsSpecial(s[i])
    ensures Esc(s) == s
  {
    if s != [] {
      EscPlain(s[1..]);
      assert s == [s[0]] + s[1..];
    }
  }

  /** The entity that starts `t`, if any: the character it stands for and its length. */
  function DecodeEntity(t: string): (r: Option<(char, nat)>)
    ensures r.Some? ==> 1 <= r.value.1 <= |t| && t[..r.value.1] == Entity(r.value.0) && IsSpecial(r.value.0)
    ensures r.Some? ==> t[0] == '&'
  {
    if "&amp;" <= t then Some(('&', 5))
    else if "&lt;" <= t then Some(('<', 4))
    else if "&gt;" <= t then Some(('>', 4))
    else if "&quot;" <= t then Some(('"', 6))
    else if "&#39;" <= t then Some(('\'', 5))
    else None
  }

  /** Decoding of the five entities; every other character is copied. This
      is how an HTML parser reads escaped text and attribute values, except
      that the parser also replaces U+0000 and line endings, which this
      decoder does not. */
  function Unescape(t: string): (r: string)
    decreases |t|
  {
    if t == [] then []
    else match DecodeEntity(t)
      case Some((c, n)) => [c] + Unescape(t[n..])
      case None => [t[0]] + Unescape(t[1..])
  }

  lemma DecodeEntityOf(c: char, rest: string)
    ensures DecodeEntity(Entity(c) + rest) == if IsSpecial(c) then Some((c, |Entity(c)|)) else None
  {
    var t := Entity(c) + rest;
    if !IsSpecial(c) {
      assert t[0] == c && c != '&';
      assert !("&amp;" <= t) && !("&lt;" <= t) && !("&gt;" <= t) && !("&quot;" <= t) && !("&#39;" <= t);
    } else {
      assert t[..|Entity(c)|] == Entity(c);
      match c
      case '&' => assert "&amp;" <= t;
      case '<' => assert t[1] == 'l' && !("&amp;" <= t) && "&lt;" <= t;
      case '>' => assert t[1] == 'g' && t[2] == 't' && !("&amp;" <= t) && !("&lt;" <= t) && "&gt;" <= t;
      case '"' => assert t[1] == 'q' && !("&amp;" <= t) && !("&lt;" <= t) && !("&gt;" <= t) && "&quot;" <= t;
      case '\'' =>
        assert t[1] == '#';
        assert !("&amp;" <= t) && !("&lt;" <= t) && !("&gt;" <= t) && !("&quot;" <= t) && "&#39;" <= t;
    }
  }

  /** Decoding reads one entity, or one plain character, back as the
      character it came from. */
  lemma UnescapeEntity(c: char, rest: string)
    ensures Unescape(Entity(c) + rest) == [c] + Unescape(rest)
  {
    var e := Entity(c);
    DecodeEntityOf(c, rest);
    if IsSpecial(c) {
      assert (e + rest)[|e|..] == rest;
    } else {
      assert (e + rest)[0] == c;
      assert (e + rest)[1..] == rest;
    }
  }

  /** Decoding undoes escaping: the browser reads back exactly the string
      that was escaped. */
  lemma {:induction false} UnescapeEsc(s: string)
    ensures Unescape(Esc(s)) == s
  {
    if s != [] {
      assert Esc(s) == Entity(s[0]) + Esc(s[1..]);
      UnescapeEntity(s[0], Esc(s[1..]));
      UnescapeEsc(s[1..]);
      assert s == [s[0]] + s[1..];
    }
  }

  lemma EscChar(c: char)
    ensures Esc([c]) == Entity(c)
  {
    assert [c][1..] == [];
  }

  /** A tag around plain text: the angle brackets become entities and the
      text is kept. */
  lemma EscTag(w: string)
    requires forall i | 0 <= i < |w| :: !IsSpecial(w[i])
    ensures Esc("<" + w + ">") == "&lt;" + w + "&gt;"
  {
    EscConcat("<" + w, ">");
    EscConcat("<", w);
    EscPlain(w);
    EscChar('<');
    EscChar('>');
  }

  /** The example of markup in a name: `<script>` is shown, never run. */
  lemma EscScriptTag()
    ensures Esc("<script>") == "&lt;script&gt;"
  {
    EscTag("script");
    assert "<" + "script" + ">" == "<script>";
    assert "&lt;" + "script" + "&gt;" == "&lt;script&gt;";
  }
}
