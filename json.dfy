/**
 * The JSON text `serde_json::to_string` writes for the three stored records, and a parser
 * for that text standing in for `serde_json::from_str`. The stand-in covers the text the
 * program writes: fields in declaration order, no whitespace, and string values that are
 * base64 text or `<uuid>.pwd` names, which need no escapes beyond '"' and '\'. Control
 * character escapes, whitespace and other field orders, which serde_json also reads, are
 * not part of it.
 */
module Json {
  import opened Prelude
  import opened Models

  function EscapeChar(c: char): string
  {
    if c == '"' then ['\\', '"'] else if c == '\\' then ['\\', '\\'] else [c]
  }

  function Escape(s: string): string
  {
    if s == [] then [] else EscapeChar(s[0]) + Escape(s[1..])
  }

  /** A JSON string literal. */
  function Quote(s: string): string
  {
    "\"" + Escape(s) + "\""
  }

  /** Reads the body of a string literal up to its closing quote: the text, then what follows. */
  function ParseBody(t: string): (r: Option<(string, string)>)
    ensures r.Some? ==> |r.value.1| < |t|
    decreases |t|
  {
    if t == [] then None
    else if t[0] == '"' then Some(([], t[1..]))
    else if t[0] == '\\' then
      if |t| >= 2 && (t[1] == '"' || t[1] == '\\') then
        var (s, rest) :- ParseBody(t[2..]);
        Some(([t[1]] + s, rest))
      else None
    else
      var (s, rest) :- ParseBody(t[1..]);
      Some(([t[0]] + s, rest))
  }

  /** Reads a string literal at the front of `t`. */
  function ParseString(t: string): (r: Option<(string, string)>)
    ensures r.Some? ==> |r.value.1| < |t|
  {
    if t != [] && t[0] == '"' then ParseBody(t[1..]) else None
  }

  /** Removes the literal `p` from the front of `t`. */
  function StripPrefix(p: string, t: string): (r: Option<string>)
    ensures r.Some? <==> |p| <= |t| && t[..|p|] == p
    ensures r.Some? ==> t == p + r.value
  {
    if |p| <= |t| && t[..|p|] == p then Some(t[|p|..]) else None
  }

  lemma StripPrefixAppend(p: string, rest: string)
    ensures StripPrefix(p, p + rest) == Some(rest)
  {
    assert (p + rest)[..|p|] == p;
    assert (p + rest)[|p|..] == rest;
  }

  lemma {:induction false} ParseBodyEscape(s: string, rest: string)
    ensures ParseBody(Escape(s) + "\"" + rest) == Some((s, rest))
  {
    if s == [] {
      assert Escape(s) + "\"" + rest == ['"'] + rest;
      assert (['"'] + rest)[1..] == rest;
    } else {
      var e := EscapeChar(s[0]);
      var t := Escape(s[1..]) + "\"" + rest;
      assert Escape(s) + "\"" + rest == e + t;
      ParseBodyEscape(s[1..], rest);
      if s[0] == '"' || s[0] == '\\' {
        assert (e + t)[2..] == t;
      } else {
        assert (e + t)[1..] == t;
      }
      assert [s[0]] + s[1..] == s;
    }
  }

  /** A string literal reads back as the text it quotes, leaving what follows it. */
  lemma ParseStringQuote(s: string, rest: string)
    ensures ParseString(Quote(s) + rest) == Some((s, rest))
  {
    assert Quote(s) + rest == "\"" + (Escape(s) + "\"" + rest);
    assert (Quote(s) + rest)[1..] == Escape(s) + "\"" + rest;
    ParseBodyEscape(s, rest);
  }

  const FilenameKey: string := "{\"encrypted_filename\":"
  const NameKey: string := ",\"encrypted_name\":"
  const NonceKey: string := ",\"nonce\":"
  const EntriesKey: string := "{\"entries\":"
  const PasswordKey: string := "{\"encrypted_password\":"

  /** A key (with its leading punctuation) followed by a string value. */
  function Field(key: string, value: string): string
  {
    key + Quote(value)
  }

  function ParseField(key: string, t: string): (r: Option<(string, string)>)
    ensures r.Some? ==> |r.value.1| < |t|
  {
    var t1 :- StripPrefix(key, t);
    ParseString(t1)
  }

  lemma ParseFieldOf(key: string, value: string, rest: string)
    ensures ParseField(key, Field(key, value) + rest) == Some((value, rest))
  {
    assert Field(key, value) + rest == key + (Quote(value) + rest);
    StripPrefixAppend(key, Quote(value) + rest);
    ParseStringQuote(value, rest);
  }

  function EncodeEntry(e: DefFileEntry): string
  {
    Field(FilenameKey, e.encryptedFilename) + Field(NameKey, e.encryptedName)
      + Field(NonceKey, e.nonce) + "}"
  }

  function ParseEntry(t: string): (r: Option<(DefFileEntry, string)>)
    ensures r.Some? ==> |r.value.1| < |t|
  {
    var (f, t1) :- ParseField(FilenameKey, t);
    var (n, t2) :- ParseField(NameKey, t1);
    var (no, t3) :- ParseField(NonceKey, t2);
    var t4 :- StripPrefix("}", t3);
    Some((DefFileEntry(f, n, no), t4))
  }

  lemma ParseEncodeEntry(e: DefFileEntry, rest: string)
    ensures ParseEntry(EncodeEntry(e) + rest) == Some((e, rest))
  {
    var a, b, c := Field(FilenameKey, e.encryptedFilename), Field(NameKey, e.encryptedName),
      Field(NonceKey, e.nonce);
    assert EncodeEntry(e) == ((a + b) + c) + "}";
    ConcatAssoc((a + b) + c, "}", rest);
    ConcatAssoc(a + b, c, "}" + rest);
    ConcatAssoc(a, b, c + ("}" + rest));
    ParseFieldOf(FilenameKey, e.encryptedFilename, b + (c + ("}" + rest)));
    ParseFieldOf(NameKey, e.encryptedName, c + ("}" + rest));
    ParseFieldOf(NonceKey, e.nonce, "}" + rest);
    StripPrefixAppend("}", rest);
  }

  /** The entries of a non-empty array after its '[', with the closing ']'. */
  function EncodeItems(es: seq<DefFileEntry>): string
    requires es != []
  {
    EncodeEntry(es[0]) + (if |es| == 1 then "]" else "," + EncodeItems(es[1..]))
  }

  function EncodeList(es: seq<DefFileEntry>): string
  {
    "[" + (if es == [] then "]" else EncodeItems(es))
  }

  function ParseItems(t: string): (r: Option<(seq<DefFileEntry>, string)>)
    ensures r.Some? ==> |r.value.1| < |t|
    decreases |t|
  {
    var (e, t1) :- ParseEntry(t);
    if t1 != [] && t1[0] == ']' then Some(([e], t1[1..]))
    else if t1 != [] && t1[0] == ',' then
      var (es, t2) :- ParseItems(t1[1..]);
      Some(([e] + es, t2))
    else None
  }

  function ParseList(t: string): (r: Option<(seq<DefFileEntry>, string)>)
  {
    if t != [] && t[0] == '[' then
      if |t| >= 2 && t[1] == ']' then Some(([], t[2..])) else ParseItems(t[1..])
    else None
  }

  lemma {:induction false} ParseEncodeItems(es: seq<DefFileEntry>, rest: string)
    requires es != []
    ensures ParseItems(EncodeItems(es) + rest) == Some((es, rest))
    decreases |es|
  {
    if |es| == 1 {
      ParseItemsLast(es, rest);
    } else {
      ParseEncodeItems(es[1..], rest);
      ParseItemsCons(es, rest);
    }
  }

  /** The last entry of a list, followed by the closing bracket. */
  lemma ParseItemsLast(es: seq<DefFileEntry>, rest: string)
    requires |es| == 1
    ensures ParseItems(EncodeItems(es) + rest) == Some((es, rest))
  {
    EncodeItemsSplit(es, rest);
    ParseItemsAfter(es[0], "]", rest);
    ParseItemsStep(EncodeItems(es) + rest, es[0], "]", rest, [], rest);
    HeadTail(es);
  }

  /** An entry followed by a comma and the parseable remainder of the list. */
  lemma ParseItemsCons(es: seq<DefFileEntry>, rest: string)
    requires |es| > 1 && ParseItems(EncodeItems(es[1..]) + rest) == Some((es[1..], rest))
    ensures ParseItems(EncodeItems(es) + rest) == Some((es, rest))
  {
    var more := EncodeItems(es[1..]) + rest;
    EncodeItemsSplit(es, rest);
    ParseItemsAfter(es[0], ",", more);
    ParseItemsStep(EncodeItems(es) + rest, es[0], ",", more, es[1..], rest);
    HeadTail(es);
  }

  lemma HeadTail(es: seq<DefFileEntry>)
    requires es != []
    ensures [es[0]] + es[1..] == es
  {
  }

  /**
   * One step of the item parser: an entry, then `]` ending the list or a comma before the
   * remaining items.
   */
  lemma ParseItemsStep(t: string, e: DefFileEntry, sep: string, more: string, tail: seq<DefFileEntry>, rest: string)
    requires sep == "]" || sep == ","
    requires ParseEntry(t) == Some((e, sep + more))
    requires sep == "]" ==> tail == [] && more == rest
    requires sep == "," ==> ParseItems(more) == Some((tail, rest))
    ensures ParseItems(t) == Some(([e] + tail, rest))
  {
    assert (sep + more)[0] == sep[0] && (sep + more)[1..] == more;
    if sep == "]" {
      assert [e] + tail == [e];
    }
  }

  /** The text of a list's items: the first entry, then `]` or a comma and the other items. */
  lemma EncodeItemsSplit(es: seq<DefFileEntry>, rest: string)
    requires es != []
    ensures |es| == 1 ==> EncodeItems(es) + rest == EncodeEntry(es[0]) + ("]" + rest)
    ensures |es| > 1 ==> EncodeItems(es) + rest == EncodeEntry(es[0]) + ("," + (EncodeItems(es[1..]) + rest))
  {
    var a := EncodeEntry(es[0]);
    if |es| == 1 {
      assert EncodeItems(es) == a + "]";
      ConcatAssoc(a, "]", rest);
    } else {
      var c := EncodeItems(es[1..]);
      assert EncodeItems(es) == a + ("," + c);
      ConcatAssoc(a, "," + c, rest);
      ConcatAssoc(",", c, rest);
    }
  }

  lemma ConcatAssoc(a: string, b: string, c: string)
    ensures (a + b) + c == a + (b + c)
  {
  }

  /** One entry, then the separator that follows it. */
  lemma ParseItemsAfter(e: DefFileEntry, sep: string, more: string)
    requires sep == "]" || sep == ","
    ensures ParseEntry(EncodeEntry(e) + (sep + more)) == Some((e, sep + more))
    ensures (sep + more)[0] == sep[0] && (sep + more)[1..] == more
  {
    ParseEncodeEntry(e, sep + more);
  }

  lemma ParseEncodeList(es: seq<DefFileEntry>, rest: string)
    ensures ParseList(EncodeList(es) + rest) == Some((es, rest))
  {
    var t := EncodeList(es) + rest;
    if es == [] {
      assert t == "[]" + rest && t[2..] == rest;
    } else {
      var u := EncodeItems(es) + rest;
      EncodeItemsStart(es);
      assert t == "[" + u && t[1..] == u && t[1] == u[0];
      ParseEncodeItems(es, rest);
    }
  }

  /** A non-empty list's items start with the brace of the first entry, never with `]`. */
  lemma EncodeItemsStart(es: seq<DefFileEntry>)
    requires es != []
    ensures EncodeItems(es)[0] == '{'
  {
    var a := Field(FilenameKey, es[0].encryptedFilename);
    assert a[0] == FilenameKey[0];
    var e := EncodeEntry(es[0]);
    assert e[0] == a[0];
    assert EncodeItems(es)[0] == e[0];
  }

  /** `serde_json::to_string(&DefFile)`. */
  function EncodeDefFile(d: DefFile): string
  {
    EntriesKey + EncodeList(d.entries) + "}"
  }

  /** `serde_json::from_str::<DefFile>`: None stands for a parse error. */
  function ParseDefFile(s: string): (r: Option<DefFile>)
    ensures r.Some? ==> |s| > 0 && s[0] == '{'
  {
    var t1 :- StripPrefix(EntriesKey, s);
    var (es, t2) :- ParseList(t1);
    if t2 == "}" then Some(DefFile(es)) else None
  }

  /** The index serializes and parses back to itself. */
  lemma ParseEncodeDefFile(d: DefFile)
    ensures ParseDefFile(EncodeDefFile(d)) == Some(d)
  {
    var t1 := EncodeList(d.entries) + "}";
    assert EncodeDefFile(d) == EntriesKey + t1;
    StripPrefixAppend(EntriesKey, t1);
    ParseEncodeList(d.entries, "}");
  }

  /** `serde_json::to_string(&PasswordFile)`. */
  function EncodePasswordFile(p: PasswordFile): string
  {
    Field(PasswordKey, p.encryptedPassword) + Field(NonceKey, p.nonce) + "}"
  }

  /** `serde_json::from_str::<PasswordFile>`: None stands for a parse error. */
  function ParsePasswordFile(s: string): (r: Option<PasswordFile>)
    ensures r.Some? ==> |s| > 0 && s[0] == '{'
  {
    var (p, t1) :- ParseField(PasswordKey, s);
    var (n, t2) :- ParseField(NonceKey, t1);
    if t2 == "}" then Some(PasswordFile(p, n)) else None
  }

  /** A secret record serializes and parses back to itself. */
  lemma ParseEncodePasswordFile(p: PasswordFile)
    ensures ParsePasswordFile(EncodePasswordFile(p)) == Some(p)
  {
    var a, b := Field(PasswordKey, p.encryptedPassword), Field(NonceKey, p.nonce);
    assert EncodePasswordFile(p) == a + (b + "}");
    ParseFieldOf(PasswordKey, p.encryptedPassword, b + "}");
    ParseFieldOf(NonceKey, p.nonce, "}");
  }
}
