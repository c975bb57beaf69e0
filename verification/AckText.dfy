/** Acknowledgements as consumers write them: with spaces, in either order, with any escapes in the strings. */
module AckText {
  import opened Json
  import opened JsonGrammar
  import opened JsonRoundTrip
  import opened JsonSpelling
  import opened JsonText
  import opened SortedMap
  import opened SpoolSets
  import opened Wrappers

  /** A key without anything to escape is written between quotes as it is. */
  lemma {:induction false} PlainText(s: string)
    requires forall i | 0 <= i < |s| :: ' ' <= s[i] && s[i] != '"' && s[i] != '\\'
    ensures Escape(s) == s
  {
    if s != "" {
      assert forall i | 0 <= i < |s[1..]| :: s[1..][i] == s[i + 1];
      PlainText(s[1..]);
      assert EscapeChar(s[0]) == [s[0]];
      assert [s[0]] + s[1..] == s;
    }
  }

  /** A field with a plain key and a string. */
  lemma TextField(key: string, q: seq<Spelled>) returns (f: Field)
    requires (forall i | 0 <= i < |key| :: ' ' <= key[i] && key[i] != '"' && key[i] != '\\') && AllWellSpelled(q)
    ensures f.value == Quoted(q) && AllWellSpelled(f.key) && Chars(f.key) == key
    ensures KeyTokens(f.key, Tokens(f.value)) == ["\"" + key + "\"", ":", QuotedText(q)]
  {
    f := Field(Spellings(key), Quoted(q));
    SpellingsRead(key);
    PlainText(key);
  }

  lemma ClosedTwo(p: seq<string>, q: seq<string>, close: string)
    ensures Closed([p, q], close) == p + ([","] + (q + [close]))
  {
    assert [p, q][1..] == [q] && [q][1..] == [];
    assert Others([q], close) == [","] + (q + Others([], close));
  }

  lemma FoldedTwo(e: Entry<Json>, f: Entry<Json>)
    ensures Collected([e, f]) == Insert(Insert([], e.key, e.value), f.key, f.value)
  {
    assert [e, f][1..] == [f] && [f][1..] == [];
    var m := InsertEntry([], e);
    assert Folded(InsertEntry, m, [f]) == Folded(InsertEntry, InsertEntry(m, f), []);
  }

  lemma TwoFields(read: FloatReader, gap: nat -> string, f: Field, g: Field, toks: seq<string>)
    requires AllWhite(gap) && AllWellSpelled(f.key) && AllWellSpelled(g.key)
    requires WellWritten(read, f.value) && WellWritten(read, g.value)
    requires toks == KeyTokens(f.key, Tokens(f.value)) + ([","] + (KeyTokens(g.key, Tokens(g.value)) + ["}"]))
    ensures Parse(read, Spaced(gap, ["{"] + toks))
            == Ok(Obj(Insert(Insert([], Chars(f.key), Meaning(read, f.value)), Chars(g.key), Meaning(read, g.value))))
  {
    var fields := [f, g];
    var parts := FieldTokens(fields);
    assert parts == [KeyTokens(f.key, Tokens(f.value)), KeyTokens(g.key, Tokens(g.value))];
    ClosedTwo(parts[0], parts[1], "}");
    ParseSpaced(read, gap, Object(fields));
    var es := Given(read, fields);
    assert es == [Entry(Chars(f.key), Meaning(read, f.value)), Entry(Chars(g.key), Meaning(read, g.value))];
    FoldedTwo(es[0], es[1]);
  }

  /** Two strings under plain keys. */
  lemma {:induction false} TwoStrings(
    read: FloatReader, gap: nat -> string, k: string, x: seq<Spelled>, l: string, y: seq<Spelled>
  )
    requires AllWhite(gap) && AllWellSpelled(x) && AllWellSpelled(y)
    requires forall i | 0 <= i < |k| :: ' ' <= k[i] && k[i] != '"' && k[i] != '\\'
    requires forall i | 0 <= i < |l| :: ' ' <= l[i] && l[i] != '"' && l[i] != '\\'
    ensures var toks := ["{", "\"" + k + "\"", ":", QuotedText(x), ",", "\"" + l + "\"", ":", QuotedText(y), "}"];
            Parse(read, Spaced(gap, toks)) == Ok(Obj(Insert(Insert([], k, Str(Chars(x))), l, Str(Chars(y)))))
  {
    var f := TextField(k, x);
    var g := TextField(l, y);
    var toks := NineTokens("\"" + k + "\"", QuotedText(x), "\"" + l + "\"", QuotedText(y));
    TwoFields(read, gap, f, g, toks);
  }

  lemma NineTokens(k: string, x: string, l: string, y: string) returns (toks: seq<string>)
    ensures toks == [k, ":", x] + ([","] + ([l, ":", y] + ["}"]))
    ensures ["{"] + toks == ["{", k, ":", x, ",", l, ":", y, "}"]
  {
    toks := [k, ":", x, ",", l, ":", y, "}"];
  }

  lemma {:induction false} TwoLookups(k: string, u: Json, l: string, v: Json)
    requires k != l
    ensures var m := Insert(Insert([], k, u), l, v); Get(m, k) == Some(u) && Get(m, l) == Some(v)
  {
    GetInsert(Insert([], k, u), l, v, k);
    GetInsert(Insert([], k, u), l, v, l);
    GetInsert([], k, u, k);
  }

  lemma Different(k: string, l: string)
    requires k == "module" && l == "batchId"
    ensures k != l
    ensures forall i | 0 <= i < |k| :: ' ' <= k[i] && k[i] != '"' && k[i] != '\\'
    ensures forall i | 0 <= i < |l| :: ' ' <= l[i] && l[i] != '"' && l[i] != '\\'
    ensures "\"" + k + "\"" == "\"module\"" && "\"" + l + "\"" == "\"batchId\""
  {
    assert k[0] != l[0];
  }

  lemma {:induction false} RequestOf(m: seq<Entry<Json>>, name: string, id: string)
    requires Get(m, "module") == Some(Str(name)) && Get(m, "batchId") == Some(Str(id))
    ensures AckRequest(Ok(Obj(m))) == Some((name, id))
  {
  }

  /**
   An acknowledgement, however it is spaced and its strings are spelled, and whichever member comes
   first, names its module and its batch.
   */
  lemma {:induction false} AcknowledgementNames(
    read: FloatReader, gap: nat -> string, name: seq<Spelled>, id: seq<Spelled>
  )
    requires AllWhite(gap) && AllWellSpelled(name) && AllWellSpelled(id)
    ensures var toks := ["{", "\"module\"", ":", QuotedText(name), ",", "\"batchId\"", ":", QuotedText(id), "}"];
            AckRequest(Parse(read, Spaced(gap, toks))) == Some((Chars(name), Chars(id)))
    ensures var toks := ["{", "\"batchId\"", ":", QuotedText(id), ",", "\"module\"", ":", QuotedText(name), "}"];
            AckRequest(Parse(read, Spaced(gap, toks))) == Some((Chars(name), Chars(id)))
  {
    var k, l := "module", "batchId";
    var u, v := Str(Chars(name)), Str(Chars(id));
    Different(k, l);
    TwoStrings(read, gap, k, name, l, id);
    TwoStrings(read, gap, l, id, k, name);
    TwoLookups(k, u, l, v);
    TwoLookups(l, v, k, u);
    RequestOf(Insert(Insert([], k, u), l, v), Chars(name), Chars(id));
    RequestOf(Insert(Insert([], l, v), k, u), Chars(name), Chars(id));
  }

  // ----- the consumers' own format -----

  /** A space after each colon and after the comma. */
  function AfterMarks(k: nat): string {
    if k == 3 || k == 5 || k == 7 then " " else ""
  }

  lemma {:induction false} NoGapBefore(k: nat, tok: string, toks: seq<string>, post: string)
    requires AfterMarks(k) == ""
    ensures Weave(AfterMarks, k, [tok] + toks, post) == tok + Weave(AfterMarks, k + 1, toks, post)
  {
    WeaveCons(AfterMarks, k, tok, toks, post);
    assert "" + (tok + Weave(AfterMarks, k + 1, toks, post)) == tok + Weave(AfterMarks, k + 1, toks, post);
  }

  lemma SpacedEnd(l: string, y: string) returns (toks: seq<string>)
    ensures toks == [l] + ([":"] + ([y] + ["}"]))
    ensures Weave(AfterMarks, 5, toks, "") == " " + (l + (":" + (" " + (y + "}"))))
  {
    var t7 := [y] + ["}"];
    var t6 := [":"] + t7;
    toks := [l] + t6;
    WeaveCons(AfterMarks, 5, l, t6, "");
    NoGapBefore(6, ":", t7, "");
    WeaveCons(AfterMarks, 7, y, ["}"], "");
    WeaveOne(AfterMarks, 8, "}", "");
  }

  lemma SpacedOut(k: string, x: string, l: string, y: string)
    ensures Spaced(AfterMarks, ["{", k, ":", x, ",", l, ":", y, "}"])
            == "{" + (k + (":" + (" " + (x + ("," + (" " + (l + (":" + (" " + (y + "}"))))))))))
  {
    var t5 := SpacedEnd(l, y);
    var t4 := [","] + t5;
    var t3 := [x] + t4;
    var t2 := [":"] + t3;
    var t1 := [k] + t2;
    assert ["{", k, ":", x, ",", l, ":", y, "}"] == ["{"] + t1;
    NoGapBefore(0, "{", t1, "");
    NoGapBefore(1, k, t2, "");
    NoGapBefore(2, ":", t3, "");
    WeaveCons(AfterMarks, 3, x, t4, "");
    NoGapBefore(4, ",", t5, "");
  }

  lemma Joined(name: string, id: string)
    ensures "{" + ("\"module\"" + (":" + (" " + (("\"" + name + "\"") + ("," + (" " + ("\"batchId\"" + (":" +
            (" " + (("\"" + id + "\"") + "}"))))))))))
            == "{\"module\": \"" + name + "\", \"batchId\": \"" + id + "\"}"
  {
  }

  lemma {:induction false} PlainSpellings(s: string)
    requires forall i | 0 <= i < |s| :: ' ' <= s[i] && s[i] != '"' && s[i] != '\\'
    ensures QuotedText(Spellings(s)) == "\"" + s + "\"" && Chars(Spellings(s)) == s
  {
    SpellingsRead(s);
    PlainText(s);
  }

  /** As the repository's consumer prints it, character for character. */
  lemma ConsumerFormat(read: FloatReader, name: string, id: string)
    requires forall i | 0 <= i < |name| :: ' ' <= name[i] && name[i] != '"' && name[i] != '\\'
    requires forall i | 0 <= i < |id| :: ' ' <= id[i] && id[i] != '"' && id[i] != '\\'
    ensures AckRequest(Parse(read, "{\"module\": \"" + name + "\", \"batchId\": \"" + id + "\"}")) == Some((name, id))
  {
    AcknowledgementNames(read, AfterMarks, Spellings(name), Spellings(id));
    PlainSpellings(name);
    PlainSpellings(id);
    SpacedOut("\"module\"", "\"" + name + "\"", "\"batchId\"", "\"" + id + "\"");
    Joined(name, id);
  }

  /** Exactly the objects whose "module" and "batchId" are strings are acknowledgements. */
  lemma NamesExactly(read: FloatReader, text: string, name: string, id: string)
    ensures AckRequest(Parse(read, text)) == Some((name, id)) <==>
            exists m ::
              IsTextOf(read, text, Obj(m)) && Get(m, "module") == Some(Str(name)) && Get(m, "batchId") == Some(Str(id))
  {
    if AckRequest(Parse(read, text)) == Some((name, id)) {
      var v := Parse(read, text).value;
      ParsesExactly(read, text, v);
      assert IsTextOf(read, text, Obj(v.members));
    }
    if m :| IsTextOf(read, text, Obj(m)) && Get(m, "module") == Some(Str(name)) && Get(m, "batchId") == Some(Str(id)) {
      ParsesExactly(read, text, Obj(m));
    }
  }
}
