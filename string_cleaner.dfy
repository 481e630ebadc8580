/**
 * `StringCleaner` (server/src/domain/utils/StringCleaner.js): strips markup tags,
 * decodes a fixed list of entities, trims, collapses whitespace runs and turns an
 * empty outcome into null.
 */
module StringCleaner {
  import opened Wrappers
  import opened Js
  import opened Text

  /** The rest of `s` after its first `>`. */
  function AfterGt(s: string): (r: string)
    requires '>' in s
    ensures |r| < |s| && r == s[|s| - |r|..]
  {
    if s[0] == '>' then s[1..] else AfterGt(s[1..])
  }

  /**
   * `s.replace(/<[^>]*>/g, '')`: a `<` that has a `>` somewhere after it starts a
   * tag running to that first `>`, and the tag is dropped; a `<` with no `>` after
   * it is kept. Afterwards no `<` is followed, anywhere later, by a `>`.
   */
  function StripTags(s: string): (r: string)
    ensures |r| <= |s|
    ensures forall c :: c in r ==> c in s
    ensures forall i, j :: 0 <= i < j < |r| && r[i] == '<' ==> r[j] != '>'
    ensures '<' !in s ==> r == s
    decreases |s|
  {
    if s == [] then []
    else if s[0] == '<' && '>' in s then
      var rest := AfterGt(s);
      assert forall c :: c in rest ==> c in s;
      StripTags(rest)
    else
      var rest := StripTags(s[1..]);
      var r := [s[0]] + rest;
      assert forall i :: 1 <= i < |r| ==> r[i] == rest[i - 1];
      assert s[0] == '<' ==> '>' !in rest;
      r
  }

  /** `s.replace(/pat/g, rep)` for a literal pattern: left-to-right, non-overlapping. */
  function ReplaceAll(s: string, pat: string, rep: string): (r: string)
    requires pat != []
    ensures |rep| <= |pat| ==> |r| <= |s|
    ensures pat[0] !in s ==> r == s
    decreases |s|
  {
    if |s| < |pat| then s
    else if s[..|pat|] == pat then rep + ReplaceAll(s[|pat|..], pat, rep)
    else [s[0]] + ReplaceAll(s[1..], pat, rep)
  }

  /** How many entities `clean` decodes. */
  const EntityCount := 9

  /**
   * The k-th entity and what it decodes to, in the order the replacements are applied
   * (`&amp;` first). Every entity starts with `&` and is at least as long as its decoding.
   */
  function Entity(k: nat): (e: (string, string))
    requires k < EntityCount
    ensures |e.0| > 0 && e.0[0] == '&' && |e.1| <= |e.0|
  {
    match k
    case 0 => ("&amp;", "&")
    case 1 => ("&lt;", "<")
    case 2 => ("&gt;", ">")
    case 3 => ("&quot;", "\"")
    case 4 => ("&#39;", "'")
    case 5 => ("&nbsp;", " ")
    case 6 => ("&copy;", "\U{00A9}")
    case 7 => ("&reg;", "\U{00AE}")
    case _ => ("&trade;", "\U{2122}")
  }

  /** Applies the replacements of entities k, k + 1, ... one after the other to the whole text. */
  function DecodeFrom(s: string, k: nat): (r: string)
    ensures |r| <= |s|
    decreases EntityCount - k
  {
    if k >= EntityCount then s else DecodeFrom(ReplaceAll(s, Entity(k).0, Entity(k).1), k + 1)
  }

  /** The nine entity replacements of `clean`, in order: never longer than the text, and a no-op without `&`. */
  function DecodeEntities(s: string): (r: string)
    ensures |r| <= |s|
    ensures '&' !in s ==> r == s
  {
    var r := DecodeFrom(s, 0);
    assert '&' !in s ==> r == s by {
      if '&' !in s {
        DecodeWithoutAmpersand(s, 0);
      }
    }
    r
  }

  /** Text without an ampersand is left alone by the decoding chain. */
  lemma {:induction false} DecodeWithoutAmpersand(s: string, k: nat)
    requires '&' !in s
    ensures DecodeFrom(s, k) == s
    decreases EntityCount - k
  {
    if k < EntityCount {
      assert ReplaceAll(s, Entity(k).0, Entity(k).1) == s;
      DecodeWithoutAmpersand(s, k + 1);
    }
  }

  /**
   * A character put in front of text with no whitespace run, whose only whitespace is
   * plain spaces, keeps it so, provided it is not whitespace, or is a plain space in
   * front of text that does not start with whitespace.
   */
  lemma PrependKeepsCollapsed(c: char, rest: string)
    requires NoSpaceRun(rest) && forall i :: 0 <= i < |rest| && IsSpace(rest[i]) ==> rest[i] == ' '
    requires IsSpace(c) ==> c == ' ' && (rest == [] || !IsSpace(rest[0]))
    ensures var r := [c] + rest;
      NoSpaceRun(r) && forall i :: 0 <= i < |r| && IsSpace(r[i]) ==> r[i] == ' '
  {
    var r := [c] + rest;
    assert forall i :: 1 <= i < |r| ==> r[i] == rest[i - 1];
  }

  /**
   * `s.replace(/\s+/g, ' ')`: every maximal whitespace run becomes one space.
   * The result keeps the emptiness and the whitespace-ness of both ends, and holds
   * no whitespace but single spaces.
   */
  function Collapse(s: string): (r: string)
    ensures |r| <= |s|
    ensures r == [] <==> s == []
    ensures r != [] ==> (IsSpace(r[0]) <==> IsSpace(s[0]))
    ensures r != [] ==> (IsSpace(r[|r| - 1]) <==> IsSpace(s[|s| - 1]))
    ensures NoSpaceRun(r)
    ensures forall i :: 0 <= i < |r| && IsSpace(r[i]) ==> r[i] == ' '
    decreases |s|
  {
    if s == [] then []
    else if IsSpace(s[0]) then
      var t := TrimStart(s);
      var rest := Collapse(t);
      PrependKeepsCollapsed(' ', rest);
      assert t == [] ==> IsSpace(s[|s| - 1]) by {
        if t == [] { assert s[..|s|] == s; }
      }
      assert t != [] ==> t[|t| - 1] == s[|s| - 1];
      [' '] + rest
    else
      var rest := Collapse(s[1..]);
      PrependKeepsCollapsed(s[0], rest);
      [s[0]] + rest
  }

  /**
   * The text after the first `n` of the four steps of `clean`, in their order: strip the
   * tags, decode the entities, trim, collapse the whitespace runs. One step is unfolded
   * at a time; `CleanPipeline` states the whole chain.
   */
  function Steps(s: string, n: nat): (r: string)
    requires n <= 4
    ensures |r| <= |s|
  {
    if n == 0 then s
    else
      var t := Steps(s, n - 1);
      if n == 1 then StripTags(t)
      else if n == 2 then DecodeEntities(t)
      else if n == 3 then Trim(t)
      else Collapse(t)
  }

  /** The four steps are exactly the chain of `clean`. */
  lemma CleanPipeline(s: string)
    ensures Steps(s, 2) == DecodeEntities(StripTags(s))
    ensures Steps(s, 4) == Collapse(Trim(DecodeEntities(StripTags(s))))
  {
    assert Steps(s, 1) == StripTags(s);
    assert Steps(s, 2) == DecodeEntities(Steps(s, 1));
    assert Steps(s, 3) == Trim(Steps(s, 2));
  }

  /** What a successful `clean` returns: non-empty, trimmed, and no whitespace run. */
  predicate CleanShape(t: string)
  {
    t != [] && Trimmed(t) && NoSpaceRun(t)
  }

  /** `StringCleaner.clean`: null for a falsy or non-string input and for text that reduces to nothing. */
  function Clean(v: Value): (r: Option<string>)
    ensures !v.Str? || v.s == [] ==> r == None
    ensures r.Some? ==> CleanShape(r.value)
    ensures r.Some? ==> forall i :: 0 <= i < |r.value| && IsSpace(r.value[i]) ==> r.value[i] == ' '
  {
    if !v.Str? || v.s == [] then None
    else
      CleanPipeline(v.s);
      var cleaned := Steps(v.s, 4);
      if |cleaned| > 0 then Some(cleaned) else None
  }

  /** `clean` of a non-empty string: null exactly when stripping and decoding leave only whitespace. */
  lemma CleanOf(s: string)
    requires s != []
    ensures var d := DecodeEntities(StripTags(s));
      Clean(Str(s)) == if AllSpace(d) then None else Some(Collapse(Trim(d)))
  {
    CleanPipeline(s);
  }

  /** The JavaScript value of a `clean` result: the string or null. */
  function AsValue(r: Option<string>): Value
  {
    match r
    case Some(s) => Str(s)
    case None => Null
  }

  /** Text with neither markup nor entity characters comes back trimmed, with runs collapsed. */
  lemma CleanPlainText(s: string)
    requires '<' !in s && '&' !in s && !AllSpace(s)
    ensures Clean(Str(s)) == Some(Collapse(Trim(s)))
  {
    DecodeWithoutAmpersand(s, 0);
    CleanOf(s);
  }

  /** A pattern holding a character that the text lacks cannot occur, so nothing is replaced. */
  lemma {:induction false} ReplaceAllMissingChar(s: string, pat: string, rep: string, k: nat)
    requires k < |pat| && pat[k] !in s
    ensures ReplaceAll(s, pat, rep) == s
    decreases |s|
  {
    if |s| >= |pat| {
      assert s[..|pat|] != pat by { assert s[..|pat|][k] == s[k]; }
      ReplaceAllMissingChar(s[1..], pat, rep, k);
      assert s == [s[0]] + s[1..];
    }
  }

  /** Text without whitespace is not changed by collapsing. */
  lemma {:induction false} CollapseNoSpace(s: string)
    requires forall i :: 0 <= i < |s| ==> !IsSpace(s[i])
    ensures Collapse(s) == s
  {
    if s != [] {
      CollapseNoSpace(s[1..]);
      assert s == [s[0]] + s[1..];
    }
  }

  lemma ReplaceLtInEncodedTag()
    ensures ReplaceAll("&lt;b&gt;", "&lt;", "<") == "<b&gt;"
  {
    var s := "&lt;b&gt;";
    assert s[..4] == "&lt;";
    ReplaceAllMissingChar("b&gt;", "&lt;", "<", 1);
    assert s[4..] == "b&gt;";
  }

  lemma ReplaceGtInHalfDecodedTag()
    ensures ReplaceAll("<b&gt;", "&gt;", ">") == "<b>"
  {
    assert ReplaceAll("&gt;", "&gt;", ">") == ">" by { assert ReplaceAll([], "&gt;", ">") == []; }
    assert ReplaceAll("b&gt;", "&gt;", ">") == "b>" by { assert "b&gt;"[1..] == "&gt;"; }
    assert "<b&gt;"[1..] == "b&gt;";
  }

  lemma DecodeEncodedTagAmp()
    ensures DecodeEntities("&lt;b&gt;") == DecodeFrom("&lt;b&gt;", 1)
  {
    ReplaceAllMissingChar("&lt;b&gt;", "&amp;", "&", 2);
  }

  lemma DecodeEncodedTagLt()
    ensures DecodeFrom("&lt;b&gt;", 1) == DecodeFrom("<b&gt;", 2)
  {
    ReplaceLtInEncodedTag();
  }

  lemma DecodeEncodedTagGt()
    ensures DecodeFrom("<b&gt;", 2) == DecodeFrom("<b>", 3)
  {
    ReplaceGtInHalfDecodedTag();
  }

  lemma DecodeDecodedTag()
    ensures DecodeFrom("<b>", 3) == "<b>"
  {
    DecodeWithoutAmpersand("<b>", 3);
  }

  lemma DecodeEncodedTag()
    ensures DecodeEntities("&lt;b&gt;") == "<b>"
  {
    DecodeEncodedTagAmp();
    DecodeEncodedTagLt();
    DecodeEncodedTagGt();
    DecodeDecodedTag();
  }

  /** `clean` of a non-empty string, given what stripping and decoding made of it. */
  lemma CleanVia(s: string, stripped: string, decoded: string)
    requires s != [] && StripTags(s) == stripped && DecodeEntities(stripped) == decoded
    ensures Clean(Str(s)) == if AllSpace(decoded) then None else Some(Collapse(Trim(decoded)))
  {
    CleanOf(s);
  }

  /** A one-character text that is not whitespace is its own trimmed, collapsed form. */
  lemma SingleCharShape(t: string)
    requires |t| == 1 && !IsSpace(t[0])
    ensures !AllSpace(t) && Collapse(Trim(t)) == t
  {
    TrimOfTrimmed(t);
    CollapseNoSpace(t);
  }

  lemma TagTextShape()
    ensures !AllSpace("<b>") && Collapse(Trim("<b>")) == "<b>"
  {
    assert !IsSpace("<b>"[0]);
    TrimOfTrimmed("<b>");
    CollapseNoSpace("<b>");
  }

  lemma EncodedTagVia()
    ensures Clean(Str("&lt;b&gt;")) == if AllSpace("<b>") then None else Some(Collapse(Trim("<b>")))
  {
    assert StripTags("&lt;b&gt;") == "&lt;b&gt;" by { assert '<' !in "&lt;b&gt;"; }
    DecodeEncodedTag();
    CleanVia("&lt;b&gt;", "&lt;b&gt;", "<b>");
  }

  /** Tags go before entities are decoded, so an encoded tag survives as a literal tag. */
  lemma EncodedTagSurvives()
    ensures Clean(Str("&lt;b&gt;")) == Some("<b>")
  {
    EncodedTagVia();
    TagTextShape();
  }

  lemma ReplaceAmpInDoublyEncoded()
    ensures ReplaceAll("&amp;lt;", "&amp;", "&") == "&lt;"
  {
    var s := "&amp;lt;";
    assert s[..5] == "&amp;" && s[5..] == "lt;";
    ReplaceAllMissingChar("lt;", "&amp;", "&", 0);
  }

  lemma DecodeDoublyEncodedAmp()
    ensures DecodeEntities("&amp;lt;") == DecodeFrom("&lt;", 1)
  {
    ReplaceAmpInDoublyEncoded();
  }

  lemma DecodeDoublyEncodedLt()
    ensures DecodeFrom("&lt;", 1) == DecodeFrom("<", 2)
  {
    assert ReplaceAll("&lt;", "&lt;", "<") == "<" by { assert ReplaceAll([], "&lt;", "<") == []; }
  }

  lemma DecodeLessThan()
    ensures DecodeFrom("<", 2) == "<"
  {
    DecodeWithoutAmpersand("<", 2);
  }

  lemma DecodeDoublyEncoded()
    ensures DecodeEntities("&amp;lt;") == "<"
  {
    DecodeDoublyEncodedAmp();
    DecodeDoublyEncodedLt();
    DecodeLessThan();
  }

  lemma DoublyEncodedVia()
    ensures Clean(Str("&amp;lt;")) == if AllSpace("<") then None else Some(Collapse(Trim("<")))
  {
    assert StripTags("&amp;lt;") == "&amp;lt;" by { assert '<' !in "&amp;lt;"; }
    DecodeDoublyEncoded();
    CleanVia("&amp;lt;", "&amp;lt;", "<");
  }

  /** `&amp;` is decoded first, so a doubly encoded `&amp;lt;` ends as `<`. */
  lemma AmpersandDecodedFirst()
    ensures Clean(Str("&amp;lt;")) == Some("<")
  {
    DoublyEncodedVia();
    SingleCharShape("<");
  }

  lemma AfterFirstTag()
    ensures AfterGt("<b></b>") == "</b>"
  {
    assert "<b></b>"[1..] == "b></b>";
    assert "b></b>"[1..] == "></b>";
    assert "></b>"[1..] == "</b>";
    assert AfterGt("></b>") == "</b>";
    assert AfterGt("b></b>") == "</b>";
  }

  lemma AfterClosingTag()
    ensures AfterGt("</b>") == []
  {
    assert "</b>"[1..] == "/b>";
    assert "/b>"[1..] == "b>";
    assert "b>"[1..] == ">";
    assert AfterGt(">") == [];
    assert AfterGt("b>") == [];
    assert AfterGt("/b>") == [];
  }

  lemma AfterOpeningTag()
    ensures AfterGt("<b>") == []
  {
    assert "<b>"[1..] == "b>";
    assert "b>"[1..] == ">";
    assert AfterGt(">") == [];
    assert AfterGt("b>") == [];
  }

  lemma StripClosingTag()
    ensures StripTags("</b>") == []
  {
    AfterClosingTag();
    assert "</b>"[3] == '>';
  }

  lemma StripElement()
    ensures StripTags("<b></b>") == []
  {
    AfterFirstTag();
    StripClosingTag();
    assert "<b></b>"[2] == '>';
  }

  lemma StripOpeningTag()
    ensures StripTags("<b>") == []
  {
    AfterOpeningTag();
    assert "<b>"[2] == '>';
  }

  lemma DecodeNothing()
    ensures DecodeEntities([]) == []
  {
    DecodeWithoutAmpersand([], 0);
  }

  lemma MarkupOnlyReducesToNothing()
    ensures DecodeEntities(StripTags("<b></b>")) == []
  {
    StripElement();
    DecodeNothing();
  }

  lemma MarkupOnlyIsNull()
    ensures Clean(Str("<b></b>")) == None
  {
    CleanOf("<b></b>");
    MarkupOnlyReducesToNothing();
  }

  lemma BlankStaysBlank()
    ensures DecodeEntities("   ") == "   "
  {
    DecodeWithoutAmpersand("   ", 0);
  }

  lemma BlankReducesToBlank()
    ensures DecodeEntities(StripTags("   ")) == "   "
  {
    assert StripTags("   ") == "   " by { assert '<' !in "   "; }
    BlankStaysBlank();
  }

  lemma BlankIsSpace()
    ensures AllSpace("   ")
  {
  }

  lemma BlankIsNull()
    ensures Clean(Str("   ")) == None
  {
    CleanOf("   ");
    BlankReducesToBlank();
    BlankIsSpace();
  }

  /** Pure markup and pure whitespace clean to null, never to "". */
  lemma NothingLeftIsNull()
    ensures Clean(Str("<b></b>")) == None
    ensures Clean(Str("   ")) == None
  {
    MarkupOnlyIsNull();
    BlankIsNull();
  }

  lemma DecodedTagReducesToNothing()
    ensures DecodeEntities(StripTags("<b>")) == []
  {
    StripOpeningTag();
    DecodeNothing();
  }

  lemma DecodedTagIsNull()
    ensures Clean(Str("<b>")) == None
  {
    CleanOf("<b>");
    DecodedTagReducesToNothing();
  }

  /** `clean` is not idempotent: cleaning the clean form of `&lt;b&gt;` strips the decoded tag. */
  lemma CleanNotIdempotent()
    ensures Clean(Str("&lt;b&gt;")) == Some("<b>")
    ensures Clean(AsValue(Clean(Str("&lt;b&gt;")))) == None
  {
    EncodedTagSurvives();
    DecodedTagIsNull();
  }

  /** `StringCleaner.cleanMultiple`: one cleaned entry per argument, in order. */
  function CleanMultiple(strings: seq<Value>): (r: seq<Option<string>>)
    ensures |r| == |strings|
    ensures forall i :: 0 <= i < |r| ==> r[i] == Clean(strings[i])
  {
    if strings == [] then []
    else
      var rest := CleanMultiple(strings[1..]);
      [Clean(strings[0])] + rest
  }

  /** The `forEach` of `cleanObject`: copies `obj[prop]`, cleaned, into `acc` for each listed own property. */
  function CleanInto(acc: map<string, Value>, obj: map<string, Value>, props: seq<string>): (r: map<string, Value>)
    requires acc.Keys == obj.Keys
    ensures r.Keys == obj.Keys
    ensures forall k :: k in obj && k in props ==> r[k] == AsValue(Clean(obj[k]))
    ensures forall k :: k in obj && k !in props ==> r[k] == acc[k]
  {
    if props == [] then acc
    else
      var p := props[0];
      var next := if p in obj then acc[p := AsValue(Clean(obj[p]))] else acc;
      var r := CleanInto(next, obj, props[1..]);
      assert forall k :: k in props ==> k == p || k in props[1..];
      r
  }

  /**
   * `StringCleaner.cleanObject`: a copy of `obj` with the listed own properties replaced
   * by their cleaned value; unlisted properties keep their value, and listed names
   * that are not properties of `obj` are not added.
   */
  function CleanObject(obj: map<string, Value>, props: seq<string>): (r: map<string, Value>)
    ensures r.Keys == obj.Keys
    ensures forall k :: k in obj && k in props ==> r[k] == AsValue(Clean(obj[k]))
    ensures forall k :: k in obj && k !in props ==> r[k] == obj[k]
  {
    CleanInto(obj, obj, props)
  }
}
