/**
 * HTML escaping as `html.escape(s, quote=True)` performs it: the five
 * characters with a meaning in markup are replaced by character references,
 * every other character is kept.
 */
module Html {

  const Amp := "&amp;"
  const Lt := "&lt;"
  const Gt := "&gt;"
  const Quot := "&quot;"
  const Apos := "&#x27;"

  /** The characters that open tags or delimit attribute values. */
  predicate IsMarkup(c: char)
  {
    c == '<' || c == '>' || c == '"' || c == '\''
  }

  /** The characters `html.escape` replaces. */
  predicate IsSpecial(c: char)
  {
    c == '&' || IsMarkup(c)
  }

  predicate NoSpecial(s: string)
  {
    forall i | 0 <= i < |s| :: !IsSpecial(s[i])
  }

  /** `w` occurs in `s` starting at index `i`. */
  predicate OccursAt(s: string, i: nat, w: string)
  {
    i + |w| <= |s| && s[i..i + |w|] == w
  }

  /** One of the five references starts at index `i` of `s`. */
  predicate EntityAt(s: string, i: nat)
  {
    OccursAt(s, i, Amp) || OccursAt(s, i, Lt) || OccursAt(s, i, Gt) ||
    OccursAt(s, i, Quot) || OccursAt(s, i, Apos)
  }

  /** The replacement of one character. */
  function EscapeChar(c: char): (r: string)
    ensures |r| >= 1 && r[0] == if IsSpecial(c) then '&' else c
    ensures !IsSpecial(c) <==> r == [c]
    ensures forall i | 0 <= i < |r| :: !IsMarkup(r[i])
    ensures forall i | 0 < i < |r| :: r[i] != '&'
    ensures IsSpecial(c) ==> EntityAt(r, 0)
  {
    match c
    case '&' => Amp
    case '<' => Lt
    case '>' => Gt
    case '"' => Quot
    case '\'' => Apos
    case _ => [c]
  }

  /** `html.escape(s, quote=True)` as one pass over the characters. */
  function Escape(s: string): string
  {
    if s == [] then [] else EscapeChar(s[0]) + Escape(s[1..])
  }

  /** Escaping distributes over concatenation. */
  lemma {:induction false} EscapeConcat(a: string, b: string)
    ensures Escape(a + b) == Escape(a) + Escape(b)
  {
    if a == [] {
      assert a + b == b;
    } else {
      assert (a + b)[1..] == a[1..] + b;
      EscapeConcat(a[1..], b);
    }
  }

  /** The escaped text holds no character that could open a tag or close an attribute. */
  lemma {:induction false} EscapeHasNoMarkup(s: string)
    ensures forall i | 0 <= i < |Escape(s)| :: !IsMarkup(Escape(s)[i])
  {
    if s != [] {
      EscapeHasNoMarkup(s[1..]);
      var e, rest := EscapeChar(s[0]), Escape(s[1..]);
      assert Escape(s) == e + rest;
      assert forall i | |e| <= i < |e + rest| :: (e + rest)[i] == rest[i - |e|];
    }
  }

  /** Every `&` of the escaped text begins one of the five references. */
  lemma {:induction false} EscapeAmpersandsAreEntities(s: string)
    ensures forall i | 0 <= i < |Escape(s)| && Escape(s)[i] == '&' :: EntityAt(Escape(s), i)
  {
    if s != [] {
      EscapeAmpersandsAreEntities(s[1..]);
      var e, rest := EscapeChar(s[0]), Escape(s[1..]);
      var r := e + rest;
      assert Escape(s) == r;
      forall i | 0 <= i < |r| && r[i] == '&' ensures EntityAt(r, i) {
        if i < |e| {
          assert i == 0 && IsSpecial(s[0]);
          EntityAtPrefix(e, rest, 0);
        } else {
          assert rest[i - |e|] == '&';
          EntityAtShift(e, rest, i - |e|);
        }
      }
    }
  }

  lemma OccursAtPrefix(a: string, b: string, i: nat, w: string)
    requires OccursAt(a, i, w)
    ensures OccursAt(a + b, i, w)
  {
    assert (a + b)[i..i + |w|] == a[i..i + |w|];
  }

  lemma EntityAtPrefix(a: string, b: string, i: nat)
    requires EntityAt(a, i)
    ensures EntityAt(a + b, i)
  {
    if OccursAt(a, i, Amp) { OccursAtPrefix(a, b, i, Amp); }
    else if OccursAt(a, i, Lt) { OccursAtPrefix(a, b, i, Lt); }
    else if OccursAt(a, i, Gt) { OccursAtPrefix(a, b, i, Gt); }
    else if OccursAt(a, i, Quot) { OccursAtPrefix(a, b, i, Quot); }
    else { OccursAtPrefix(a, b, i, Apos); }
  }

  lemma OccursAtShift(a: string, b: string, i: nat, w: string)
    requires OccursAt(b, i, w)
    ensures OccursAt(a + b, |a| + i, w)
  {
    assert (a + b)[|a| + i..|a| + i + |w|] == b[i..i + |w|];
  }

  lemma EntityAtShift(a: string, b: string, i: nat)
    requires EntityAt(b, i)
    ensures EntityAt(a + b, |a| + i)
  {
    if OccursAt(b, i, Amp) { OccursAtShift(a, b, i, Amp); }
    else if OccursAt(b, i, Lt) { OccursAtShift(a, b, i, Lt); }
    else if OccursAt(b, i, Gt) { OccursAtShift(a, b, i, Gt); }
    else if OccursAt(b, i, Quot) { OccursAtShift(a, b, i, Quot); }
    else { OccursAtShift(a, b, i, Apos); }
  }

  /** Escaping never shortens, and leaves a string alone exactly when it has nothing to replace. */
  lemma {:induction false} EscapeFixedPoint(s: string)
    ensures |Escape(s)| >= |s|
    ensures Escape(s) == s <==> NoSpecial(s)
  {
    if s != [] {
      EscapeFixedPoint(s[1..]);
      var e, rest := EscapeChar(s[0]), Escape(s[1..]);
      assert Escape(s) == e + rest;
      if IsSpecial(s[0]) {
        assert |Escape(s)| > |s|;
      } else {
        assert Escape(s) == [s[0]] + rest;
        assert s == [s[0]] + s[1..];
        assert NoSpecial(s) <==> NoSpecial(s[1..]) by {
          forall i | 0 < i < |s| ensures s[i] == s[1..][i - 1] { }
        }
      }
    }
  }

  /** `str.replace(ch, rep)` for a one-character `ch`. */
  function Replace(s: string, ch: char, rep: string): string
  {
    if s == [] then []
    else (if s[0] == ch then rep else [s[0]]) + Replace(s[1..], ch, rep)
  }

  lemma {:induction false} ReplaceConcat(a: string, b: string, ch: char, rep: string)
    ensures Replace(a + b, ch, rep) == Replace(a, ch, rep) + Replace(b, ch, rep)
  {
    if a == [] {
      assert a + b == b;
    } else {
      assert (a + b)[1..] == a[1..] + b;
      ReplaceConcat(a[1..], b, ch, rep);
    }
  }

  lemma {:induction false} ReplaceAbsent(s: string, ch: char, rep: string)
    requires forall i | 0 <= i < |s| :: s[i] != ch
    ensures Replace(s, ch, rep) == s
  {
    if s != [] {
      ReplaceAbsent(s[1..], ch, rep);
    }
  }

  /**
   * `html.escape(s, quote)` as CPython writes it: a chain of `str.replace`
   * calls, `&` first so that the references added later are not re-escaped.
   */
  function ReplaceEscape(s: string, quote: bool := true): string
  {
    var s1 := Replace(s, '&', Amp);
    var s2 := Replace(s1, '<', Lt);
    var s3 := Replace(s2, '>', Gt);
    if quote then Replace(Replace(s3, '"', Quot), '\'', Apos) else s3
  }

  lemma ReplaceEscapeConcat(a: string, b: string)
    ensures ReplaceEscape(a + b) == ReplaceEscape(a) + ReplaceEscape(b)
  {
    ReplaceConcat(a, b, '&', Amp);
    var a1, b1 := Replace(a, '&', Amp), Replace(b, '&', Amp);
    ReplaceConcat(a1, b1, '<', Lt);
    var a2, b2 := Replace(a1, '<', Lt), Replace(b1, '<', Lt);
    ReplaceConcat(a2, b2, '>', Gt);
    var a3, b3 := Replace(a2, '>', Gt), Replace(b2, '>', Gt);
    ReplaceConcat(a3, b3, '"', Quot);
    ReplaceConcat(Replace(a3, '"', Quot), Replace(b3, '"', Quot), '\'', Apos);
  }

  lemma ReplaceSingle(c: char, ch: char, rep: string)
    ensures Replace([c], ch, rep) == if c == ch then rep else [c]
  {
    assert [c][1..] == [];
  }

  /** A reference holds none of the characters the later steps of the chain replace. */
  lemma ReplaceLeaves(e: string, ch: char, rep: string)
    requires forall i | 0 <= i < |e| :: !IsMarkup(e[i])
    requires IsMarkup(ch)
    ensures Replace(e, ch, rep) == e
  {
    ReplaceAbsent(e, ch, rep);
  }

  /** On one character the replacement chain gives that character's escape. */
  lemma ReplaceEscapeChar(c: char)
    ensures ReplaceEscape([c]) == EscapeChar(c)
  {
    var e := EscapeChar(c);
    ReplaceSingle(c, '&', Amp);
    if c == '&' {
      ReplaceLeaves(e, '<', Lt);
      ReplaceLeaves(e, '>', Gt);
      ReplaceLeaves(e, '"', Quot);
      ReplaceLeaves(e, '\'', Apos);
    } else {
      ReplaceSingle(c, '<', Lt);
      if c == '<' {
        ReplaceLeaves(e, '>', Gt);
        ReplaceLeaves(e, '"', Quot);
        ReplaceLeaves(e, '\'', Apos);
      } else {
        ReplaceSingle(c, '>', Gt);
        if c == '>' {
          ReplaceLeaves(e, '"', Quot);
          ReplaceLeaves(e, '\'', Apos);
        } else {
          ReplaceSingle(c, '"', Quot);
          if c == '"' {
            ReplaceLeaves(e, '\'', Apos);
          } else {
            ReplaceSingle(c, '\'', Apos);
          }
        }
      }
    }
  }

  /** The replacement chain and the one-pass escape agree on every string. */
  lemma {:induction false} ReplaceEscapeIsEscape(s: string)
    ensures ReplaceEscape(s) == Escape(s)
  {
    if s != [] {
      assert s == [s[0]] + s[1..];
      ReplaceEscapeConcat([s[0]], s[1..]);
      ReplaceEscapeChar(s[0]);
      ReplaceEscapeIsEscape(s[1..]);
    }
  }

  /** Decoding of the five references `Escape` produces; any other text is kept. */
  function Unescape(s: string): string
    decreases |s|
  {
    if s == [] then []
    else if OccursAt(s, 0, Amp) then "&" + Unescape(s[|Amp|..])
    else if OccursAt(s, 0, Lt) then "<" + Unescape(s[|Lt|..])
    else if OccursAt(s, 0, Gt) then ">" + Unescape(s[|Gt|..])
    else if OccursAt(s, 0, Quot) then "\"" + Unescape(s[|Quot|..])
    else if OccursAt(s, 0, Apos) then "'" + Unescape(s[|Apos|..])
    else [s[0]] + Unescape(s[1..])
  }

  /** Decoding a reference at the front yields its character. */
  lemma UnescapeReference(c: char, rest: string)
    requires IsSpecial(c)
    ensures Unescape(EscapeChar(c) + rest) == [c] + Unescape(rest)
  {
    var e := EscapeChar(c);
    var s := e + rest;
    assert s[..|e|] == e && s[|e|..] == rest;
    if c == '&' {
      assert OccursAt(s, 0, Amp);
    } else {
      assert s[1] == e[1] && e[1] != 'a';
      assert !OccursAt(s, 0, Amp);
      if c == '<' {
        assert OccursAt(s, 0, Lt);
      } else {
        assert s[1] == e[1] && e[1] != 'l';
        assert !OccursAt(s, 0, Lt);
        if c == '>' {
          assert OccursAt(s, 0, Gt);
        } else {
          assert s[1] == e[1] && e[1] != 'g';
          assert !OccursAt(s, 0, Gt);
          if c == '"' {
            assert OccursAt(s, 0, Quot);
          } else {
            assert s[1] == e[1] && e[1] != 'q';
            assert !OccursAt(s, 0, Quot);
            assert OccursAt(s, 0, Apos);
          }
        }
      }
    }
  }

  lemma UnescapeStep(c: char, rest: string)
    ensures Unescape(EscapeChar(c) + rest) == [c] + Unescape(rest)
  {
    if IsSpecial(c) {
      UnescapeReference(c, rest);
    } else {
      var s := [c] + rest;
      assert s[0] == c && s[1..] == rest;
    }
  }

  /** Decoding undoes escaping: nothing of the input is lost. */
  lemma {:induction false} UnescapeEscape(s: string)
    ensures Unescape(Escape(s)) == s
  {
    if s != [] {
      UnescapeStep(s[0], Escape(s[1..]));
      UnescapeEscape(s[1..]);
    }
  }

  /** Different inputs escape to different outputs. */
  lemma EscapeInjective(a: string, b: string)
    requires Escape(a) == Escape(b)
    ensures a == b
  {
    UnescapeEscape(a);
    UnescapeEscape(b);
  }

  /** An element whose tag names and text need no escaping keeps them, brackets escaped. */
  lemma EscapeTag(name: string)
    requires NoSpecial(name)
    ensures Escape("<" + name + ">") == Lt + name + Gt
  {
    EscapeFixedPoint(name);
    assert Escape("<") == Lt by { assert "<"[1..] == []; }
    assert Escape(">") == Gt by { assert ">"[1..] == []; }
    EscapeConcat("<", name);
    EscapeConcat("<" + name, ">");
  }

  lemma EscapeElement(open: string, text: string, close: string)
    requires NoSpecial(open) && NoSpecial(text) && NoSpecial(close)
    ensures Escape(("<" + open + ">") + text + ("<" + close + ">")) == (Lt + open + Gt) + text + (Lt + close + Gt)
  {
    EscapeTag(open);
    EscapeTag(close);
    EscapeFixedPoint(text);
    EscapeConcat("<" + open + ">", text);
    EscapeConcat(("<" + open + ">") + text, "<" + close + ">");
  }

  /** The script payload used against the echo endpoint. */
  const ScriptPayload := "<script>alert(1)</script>"

  lemma ScriptPayloadParts()
    ensures ScriptPayload == ("<" + "script" + ">") + "alert(1)" + ("<" + "/script" + ">")
  {
  }

  lemma ReflectedParts()
    ensures "&lt;script&gt;alert(1)&lt;/script&gt;" == (Lt + "script" + Gt) + "alert(1)" + (Lt + "/script" + Gt)
  {
  }

  /** The script payload is reflected only as inert text. */
  lemma EscapeScriptExample()
    ensures Escape(ScriptPayload) == "&lt;script&gt;alert(1)&lt;/script&gt;"
  {
    assert NoSpecial("script") && NoSpecial("alert(1)") && NoSpecial("/script");
    EscapeElement("script", "alert(1)", "/script");
    ScriptPayloadParts();
    ReflectedParts();
  }
}
