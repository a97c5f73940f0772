/** The dump of all accounts: blocks within a chain, accounts within a block, one comma between any
    two of them. */
module AccountsDump {
  import opened Wrappers
  import opened Json

  const HEADER := "{\"accounts\":[\n"
  const TRAILER := "]}\n"
  const SEPARATOR := ",\n"

  /** What gets printed before an error stops the dump, and whether it gets to the end. */
  datatype Output = Output(texts: seq<string>, complete: bool)

  /** The accounts of one block; None from `render` is an account that cannot be read. */
  function AccountTexts<A>(accounts: seq<A>, render: A -> Option<string>): Output {
    if |accounts| == 0 then Output([], true)
    else
      var text := render(accounts[0]);
      if text.None? then Output([], false)
      else
        var rest := AccountTexts(accounts[1..], render);
        Output([text.value] + rest.texts, rest.complete)
  }

  /** The accounts of all blocks in order; None from `load` is a state that cannot be loaded. */
  function BlockTexts<B, A>(blocks: seq<B>, load: B -> Option<seq<A>>, render: A -> Option<string>): Output {
    if |blocks| == 0 then Output([], true)
    else
      var accounts := load(blocks[0]);
      if accounts.None? then Output([], false)
      else
        var here := AccountTexts(accounts.value, render);
        if !here.complete then here
        else
          var rest := BlockTexts(blocks[1..], load, render);
          Output(here.texts + rest.texts, rest.complete)
  }

  function Join(texts: seq<string>, separator: string): string {
    if |texts| == 0 then ""
    else if |texts| == 1 then texts[0]
    else texts[0] + separator + Join(texts[1..], separator)
  }

  /** The printed text. */
  function Dump<B, A>(blocks: seq<B>, load: B -> Option<seq<A>>, render: A -> Option<string>): string {
    var all := BlockTexts(blocks, load, render);
    HEADER + Join(all.texts, SEPARATOR) + if all.complete then TRAILER else ""
  }

  // ---- what the dump must contain ----

  /** The accounts of the chain, block after block, as far as the blocks can be loaded. */
  function AllAccounts<B, A>(blocks: seq<B>, load: B -> Option<seq<A>>): seq<A> {
    if |blocks| == 0 || load(blocks[0]).None? then []
    else load(blocks[0]).value + AllAccounts(blocks[1..], load)
  }

  /** Their number, block by block. */
  function Total<B, A>(blocks: seq<B>, load: B -> Option<seq<A>>): nat {
    if |blocks| == 0 || load(blocks[0]).None? then 0
    else |load(blocks[0]).value| + Total(blocks[1..], load)
  }

  /** They are listed block by block in order, and of each block all. */
  lemma {:induction false} AccountsAppend<B, A>(a: seq<B>, b: B, load: B -> Option<seq<A>>)
    requires forall i | 0 <= i < |a| :: load(a[i]).Some?
    ensures AllAccounts(a + [b], load) == AllAccounts(a, load) + load(b).GetOr([])
  {
    if |a| == 0 {
      assert a + [b] == [b] && AllAccounts([b][1..], load) == [];
    } else {
      assert (a + [b])[0] == a[0] && (a + [b])[1..] == a[1..] + [b];
      AccountsAppend(a[1..], b, load);
    }
  }

  /** Every block can be loaded and every account can be read. */
  predicate Complete<B, A>(blocks: seq<B>, load: B -> Option<seq<A>>, render: A -> Option<string>) {
    && (forall i | 0 <= i < |blocks| :: load(blocks[i]).Some?)
    && var accounts := AllAccounts(blocks, load);
       forall i | 0 <= i < |accounts| :: render(accounts[i]).Some?
  }

  lemma {:induction false} TotalCounts<B, A>(blocks: seq<B>, load: B -> Option<seq<A>>)
    ensures |AllAccounts(blocks, load)| == Total(blocks, load)
  {
    if |blocks| > 0 && load(blocks[0]).Some? {
      TotalCounts(blocks[1..], load);
    }
  }

  /** The texts of a block are the renderings of its accounts, in order, up to one that cannot be read. */
  lemma {:induction false} AccountTextsExact<A>(accounts: seq<A>, render: A -> Option<string>)
    ensures var o := AccountTexts(accounts, render);
            && |o.texts| <= |accounts|
            && (forall i | 0 <= i < |o.texts| :: render(accounts[i]) == Some(o.texts[i]))
            && (o.complete ==> |o.texts| == |accounts|)
            && (!o.complete ==> |o.texts| < |accounts| && render(accounts[|o.texts|]).None?)
  {
    if |accounts| > 0 && render(accounts[0]).Some? {
      AccountTextsExact(accounts[1..], render);
      var o, rest := AccountTexts(accounts, render), AccountTexts(accounts[1..], render);
      assert forall i | 1 <= i < |o.texts| :: o.texts[i] == rest.texts[i - 1] && accounts[i] == accounts[1..][i - 1];
    }
  }

  /** The texts of the dump are the renderings of the accounts of all blocks, in order and without gaps;
      they are all there exactly if every block can be loaded and every account can be read. */
  lemma {:induction false} BlockTextsExact<B, A>(blocks: seq<B>, load: B -> Option<seq<A>>,
                                                 render: A -> Option<string>)
    ensures var o, accounts := BlockTexts(blocks, load, render), AllAccounts(blocks, load);
            && |o.texts| <= |accounts|
            && (forall i | 0 <= i < |o.texts| :: render(accounts[i]) == Some(o.texts[i]))
            && (o.complete <==> Complete(blocks, load, render))
            && (o.complete ==> |o.texts| == |accounts|)
  {
    if |blocks| > 0 && load(blocks[0]).Some? {
      var first := load(blocks[0]).value;
      AccountTextsExact(first, render);
      BlockTextsExact(blocks[1..], load, render);
      CompleteStep(blocks, load, render);
      var here, rest := AccountTexts(first, render), BlockTexts(blocks[1..], load, render);
      var accounts := AllAccounts(blocks, load);
      hide AccountTexts, Complete;
      if here.complete {
        Positions(first, AllAccounts(blocks[1..], load), here.texts, rest.texts, render);
      } else {
        assert accounts[|here.texts|] == first[|here.texts|];
      }
    }
  }

  lemma Positions<A>(a: seq<A>, b: seq<A>, s: seq<string>, t: seq<string>, render: A -> Option<string>)
    requires |s| == |a| && |t| <= |b|
    requires forall i | 0 <= i < |s| :: render(a[i]) == Some(s[i])
    requires forall i | 0 <= i < |t| :: render(b[i]) == Some(t[i])
    ensures forall i | 0 <= i < |s + t| :: render((a + b)[i]) == Some((s + t)[i])
  {
    forall i | 0 <= i < |s + t| ensures render((a + b)[i]) == Some((s + t)[i]) {
      if i >= |s| {
        assert (a + b)[i] == b[i - |s|] && (s + t)[i] == t[i - |s|];
      }
    }
  }

  lemma CompleteStep<B, A>(blocks: seq<B>, load: B -> Option<seq<A>>, render: A -> Option<string>)
    requires |blocks| > 0 && load(blocks[0]).Some?
    ensures Complete(blocks, load, render) <==>
            && (var first := load(blocks[0]).value; forall i | 0 <= i < |first| :: render(first[i]).Some?)
            && Complete(blocks[1..], load, render)
  {
    var first, rest := load(blocks[0]).value, AllAccounts(blocks[1..], load);
    var all := AllAccounts(blocks, load);
    assert forall i | 1 <= i < |blocks| :: blocks[i] == blocks[1..][i - 1];
    assert all == first + rest;
    assert forall i | 0 <= i < |first| :: all[i] == first[i];
    assert forall i | 0 <= i < |rest| :: all[|first| + i] == rest[i];
    assert forall i | |first| <= i < |all| :: all[i] == rest[i - |first|];
  }

  // ---- the dump as it is printed ----

  lemma {:induction false} JoinAppend(texts: seq<string>, text: string, separator: string)
    ensures Join(texts + [text], separator) ==
            if |texts| == 0 then text else Join(texts, separator) + separator + text
  {
    if |texts| == 0 {
      assert texts + [text] == [text];
    } else {
      JoinAppend(texts[1..], text, separator);
      assert (texts + [text])[1..] == texts[1..] + [text];
    }
  }

  lemma AccountStep<A>(done: seq<string>, accounts: seq<A>, i: nat, render: A -> Option<string>)
    requires i < |accounts|
    ensures var rest := AccountTexts(accounts[i..], render);
            var text := render(accounts[i]);
            if text.None? then rest == Output([], false) && done + rest.texts == done
            else
              var next := AccountTexts(accounts[i + 1..], render);
              && rest.complete == next.complete
              && done + rest.texts == (done + [text.value]) + next.texts
  {
    assert accounts[i..][0] == accounts[i] && accounts[i..][1..] == accounts[i + 1..];
  }

  lemma BlockStep<B, A>(done: seq<string>, blocks: seq<B>, i: nat, load: B -> Option<seq<A>>,
                        render: A -> Option<string>)
    requires i < |blocks|
    ensures var rest := BlockTexts(blocks[i..], load, render);
            var accounts := load(blocks[i]);
            if accounts.None? then rest == Output([], false) && done + rest.texts == done
            else
              var here := AccountTexts(accounts.value, render);
              if !here.complete then rest == here
              else
                var next := BlockTexts(blocks[i + 1..], load, render);
                && rest.complete == next.complete
                && done + rest.texts == (done + here.texts) + next.texts
  {
    assert blocks[i..][0] == blocks[i] && blocks[i..][1..] == blocks[i + 1..];
  }

  /** The dump: the shard blocks and then the master block, with one flag to suppress the comma before
      the very first account. */
  method PrintAccounts<B, A>(topBlocks: seq<B>, lastMc: B, load: B -> Option<seq<A>>,
                             render: A -> Option<string>) returns (ok: bool, out: string)
    ensures out == Dump(topBlocks + [lastMc], load, render)
    ensures ok <==> Complete(topBlocks + [lastMc], load, render)
  {
    var blocks := topBlocks + [lastMc];
    BlockTextsExact(blocks, load, render);
    ghost var all := BlockTexts(blocks, load, render);
    ghost var done: seq<string> := [];
    out := HEADER;
    var first := true;
    assert [] + all.texts == all.texts && HEADER + "" == HEADER;
    for i := 0 to |blocks|
      invariant first <==> done == []
      invariant out == HEADER + Join(done, SEPARATOR)
      invariant done + BlockTexts(blocks[i..], load, render).texts == all.texts
      invariant BlockTexts(blocks[i..], load, render).complete == all.complete
    {
      BlockStep(done, blocks, i, load, render);
      hide BlockTexts;
      var accounts := load(blocks[i]);
      if accounts.None? {
        return false, out;
      }
      ghost var before := done;
      ghost var here := AccountTexts(accounts.value, render);
      assert accounts.value[0..] == accounts.value;
      for j := 0 to |accounts.value|
        invariant first <==> done == []
        invariant out == HEADER + Join(done, SEPARATOR)
        invariant done + AccountTexts(accounts.value[j..], render).texts == before + here.texts
        invariant AccountTexts(accounts.value[j..], render).complete == here.complete
      {
        AccountStep(done, accounts.value, j, render);
        hide AccountTexts, Join;
        var text := render(accounts.value[j]);
        if text.None? {
          assert done == before + here.texts;
          return false, out;
        }
        JoinAppend(done, text.value, SEPARATOR);
        Glue(HEADER, Join(done, SEPARATOR), SEPARATOR, text.value);
        if !first {
          out := out + SEPARATOR;
        } else {
          assert Join(done, SEPARATOR) == "" by { EmptyJoin(SEPARATOR); }
          first := false;
        }
        out := out + text.value;
        done := done + [text.value];
      }
      assert accounts.value[|accounts.value|..] == [];
      assert done + [] == done;
    }
    assert blocks[|blocks|..] == [] && done + [] == done;
    out := out + TRAILER;
    ok := true;
  }

  lemma EmptyJoin(separator: string)
    ensures Join([], separator) == ""
  {
  }

  lemma Glue(a: string, b: string, c: string, d: string)
    ensures a + b + c + d == a + (b + c + d)
    ensures a + "" + d == a + d
  {
  }

  /** What is printed around the texts and between them. */
  lemma DumpText<B, A>(blocks: seq<B>, load: B -> Option<seq<A>>, render: A -> Option<string>)
    ensures var o := BlockTexts(blocks, load, render);
            Dump(blocks, load, render) ==
            "{\"accounts\":[\n" + Join(o.texts, ",\n") + (if o.complete then "]}\n" else "")
    ensures var o := BlockTexts(blocks, load, render);
            |o.texts| >= 2 ==> Join(o.texts, ",\n") == o.texts[0] + ",\n" + Join(o.texts[1..], ",\n")
  {
    hide BlockTexts;
  }

  // ---- the dump as JSON ----

  /** Each text is by itself exactly one JSON object. */
  predicate AreObjects(texts: seq<string>, values: seq<Json>) {
    && |texts| == |values|
    && forall i | 0 <= i < |texts| :: ReadValue(texts[i]) == Some((values[i], "")) && values[i].Object?
  }

  lemma NewlineSkipped(x: string)
    ensures ReadItems("\n" + x) == ReadItems(x)
  {
    assert ("\n" + x)[1..] == x;
    assert SkipSpace("\n" + x) == SkipSpace(x);
    assert ReadValue("\n" + x) == ReadValue(x);
  }

  lemma ItemsStep(text: string, value: Json, others: seq<Json>, more: string, last: string)
    requires ReadValue(text + ("," + more)) == Some((value, "," + more))
    requires ReadItems(more) == Some((others, last))
    ensures ReadItems(text + ("," + more)) == Some(([value] + others, last))
  {
    var rest := "," + more;
    assert SkipSpace(rest) == rest && rest[1..] == more;
  }

  lemma ItemsEnd(text: string, value: Json, last: string)
    requires ReadValue(text + ("]" + last)) == Some((value, "]" + last))
    ensures ReadItems(text + ("]" + last)) == Some(([value], last))
  {
    var rest := "]" + last;
    assert SkipSpace(rest) == rest && rest[1..] == last;
  }

  lemma {:induction false} ItemsRead(texts: seq<string>, values: seq<Json>, last: string)
    requires |texts| > 0 && AreObjects(texts, values)
    ensures ReadItems(Join(texts, SEPARATOR) + ("]" + last)) == Some((values, last))
  {
    hide ReadItems, ReadValue;
    if |texts| == 1 {
      ValueExtends(texts[0], "]" + last);
      assert "" + ("]" + last) == "]" + last;
      ItemsEnd(texts[0], values[0], last);
      assert values == [values[0]];
    } else {
      var joined := Join(texts[1..], SEPARATOR) + ("]" + last);
      ItemsRead(texts[1..], values[1..], last);
      NewlineSkipped(joined);
      var more := "\n" + joined;
      ValueExtends(texts[0], "," + more);
      assert "" + ("," + more) == "," + more;
      ItemsStep(texts[0], values[0], values[1..], more, last);
      assert Join(texts, SEPARATOR) + ("]" + last) == texts[0] + ("," + more);
      assert [values[0]] + values[1..] == values;
    }
  }

  /** The text between the brackets, as an array. */
  lemma ArrayRead(texts: seq<string>, values: seq<Json>, last: string)
    requires AreObjects(texts, values)
    ensures ReadValue("[\n" + Join(texts, SEPARATOR) + ("]" + last)) == Some((Array(values), last))
  {
    var inner := Join(texts, SEPARATOR) + ("]" + last);
    var s := "[\n" + Join(texts, SEPARATOR) + ("]" + last);
    assert s[0] == '[' && s[1..] == "\n" + inner && SkipSpace(s) == s;
    assert ("\n" + inner)[1..] == inner;
    if |texts| == 0 {
      assert inner == "]" + last && inner[1..] == last;
    } else {
      NewlineSkipped(inner);
      ItemsRead(texts, values, last);
      BeginsObject(texts, values, "]" + last);
    }
  }

  /** What begins an object is not the end of the array. */
  lemma BeginsObject(texts: seq<string>, values: seq<Json>, last: string)
    requires |texts| > 0 && AreObjects(texts, values)
    ensures var u := SkipSpace(Join(texts, SEPARATOR) + last); |u| > 0 && u[0] == '{'
  {
    var t := texts[0];
    var rest := if |texts| == 1 then last else SEPARATOR + Join(texts[1..], SEPARATOR) + last;
    assert Join(texts, SEPARATOR) + last == t + rest;
    SpaceExtends(t, rest);
  }

  /** The printed text with its header and trailer, as an object. */
  lemma DumpIsJson(texts: seq<string>, values: seq<Json>)
    requires AreObjects(texts, values)
    ensures Parse(HEADER + Join(texts, SEPARATOR) + TRAILER) ==
            Some(Object([("accounts", Array(values))]))
  {
    var items := "[\n" + Join(texts, SEPARATOR) + ("]" + "}\n");
    ArrayRead(texts, values, "}\n");
    var s := HEADER + Join(texts, SEPARATOR) + TRAILER;
    hide ReadValue, Join;
    assert s == "{\"accounts\":" + items;
    ObjectRead(items, Array(values), s);
  }

  /** The printed text of a chain whose blocks can be loaded and whose accounts can be read, each account
      as a JSON object of its own: it is a JSON object whose one member is the array of these objects,
      in order, one for each account of each block; empty blocks, and even an empty chain, make no
      difference. */
  lemma DumpListsAccounts<B, A>(blocks: seq<B>, load: B -> Option<seq<A>>, render: A -> Option<string>,
                                values: seq<Json>)
    requires Complete(blocks, load, render)
    requires var accounts := AllAccounts(blocks, load);
             && |values| == |accounts|
             && forall i | 0 <= i < |accounts| ::
                  ReadValue(render(accounts[i]).value) == Some((values[i], "")) && values[i].Object?
    ensures Parse(Dump(blocks, load, render)) == Some(Object([("accounts", Array(values))]))
    ensures |values| == Total(blocks, load)
  {
    BlockTextsExact(blocks, load, render);
    TotalCounts(blocks, load);
    hide Complete, AllAccounts, Total, ReadValue, Parse;
    var texts := BlockTexts(blocks, load, render).texts;
    assert AreObjects(texts, values);
    DumpIsJson(texts, values);
  }

  lemma MemberRead(name: string, items: string, value: Json, rest: string)
    requires Plain(name) && ReadValue(items) == Some((value, rest))
    ensures ReadMember("\"" + (name + "\"" + (":" + items))) == Some(((name, value), rest))
  {
    hide ReadChars, Plain, ReadValue;
    var afterName := ":" + items;
    var inner := "\"" + (name + "\"" + afterName);
    PlainRead(name, afterName);
    assert SkipSpace(inner) == inner && inner[1..] == name + "\"" + afterName;
    assert SkipSpace(afterName) == afterName && afterName[1..] == items;
  }

  lemma HeaderSplit(items: string)
    ensures "{\"accounts\":" + items == "{" + ("\"" + ("accounts" + "\"" + (":" + items)))
  {
  }

  lemma MembersRead(inner: string, member: (string, Json))
    requires ReadMember(inner) == Some((member, "}\n"))
    ensures ReadMembers(inner) == Some(([member], "\n"))
  {
    assert "}\n"[1..] == "\n" && SkipSpace("}\n") == "}\n";
  }

  lemma ObjectRead(items: string, value: Json, s: string)
    requires s == "{\"accounts\":" + items && ReadValue(items) == Some((value, "}\n"))
    ensures Parse(s) == Some(Object([("accounts", value)]))
  {
    var inner := "\"" + ("accounts" + "\"" + (":" + items));
    MemberRead("accounts", items, value, "}\n");
    MembersRead(inner, ("accounts", value));
    HeaderSplit(items);
    hide ReadMember, ReadMembers, Parse, ReadValue;
    BracedRead(inner, ("accounts", value));
    assert s == "{" + inner;
  }

  lemma BracedRead(inner: string, member: (string, Json))
    requires |inner| > 0 && inner[0] == '\"' && ReadMembers(inner) == Some(([member], "\n"))
    ensures Parse("{" + inner) == Some(Object([member]))
  {
    hide ReadMembers, ReadChars, ReadItems, ReadScalar;
    var s := "{" + inner;
    assert s[0] == '{' && s[1..] == inner;
    assert SkipSpace(s) == s && SkipSpace(inner) == inner;
    assert ReadValue(s) == Some((Object([member]), "\n"));
    assert "\n"[1..] == "" && SkipSpace("\n") == SkipSpace("") == "";
  }
}
