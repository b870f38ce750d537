/**
 * The request side of `rag_chat`: which message is the query, the context
 * prompt built from the retrieved texts, and the messages forwarded to the model.
 */
module Prompt {
  import opened Options
  import opened Strings

  /** A chat message as the client sends it: a JSON object of string fields. */
  type Message = map<string, string>

  /** `msg.get("role") == "user"`. */
  predicate IsUser(m: Message)
  {
    "role" in m && m["role"] == "user"
  }

  /** `msg.get("content", "")`. */
  function Content(m: Message): string
  {
    if "content" in m then m["content"] else ""
  }

  /** The position of the last user message, if there is one. */
  function LastUserIndex(messages: seq<Message>): (r: Option<nat>)
    ensures r.Some? ==> r.value < |messages| && IsUser(messages[r.value])
    ensures r.Some? ==> forall j :: r.value < j < |messages| ==> !IsUser(messages[j])
    ensures r.None? ==> forall j :: 0 <= j < |messages| ==> !IsUser(messages[j])
  {
    if messages == [] then None
    else if IsUser(messages[|messages| - 1]) then Some(|messages| - 1)
    else LastUserIndex(messages[..|messages| - 1])
  }

  /**
   * The query `rag_chat` searches with: the content of the last user message,
   * or "" when there is none. A user message without content also gives "".
   */
  function Query(messages: seq<Message>): (q: string)
    ensures (forall j :: 0 <= j < |messages| ==> !IsUser(messages[j])) ==> q == ""
  {
    match LastUserIndex(messages)
    case None => ""
    case Some(i) => Content(messages[i])
  }

  /** A user message at `i` with none after it is the one `Query` reads. */
  lemma QueryAt(messages: seq<Message>, i: nat)
    requires i < |messages| && IsUser(messages[i])
    requires forall j :: i < j < |messages| ==> !IsUser(messages[j])
    ensures LastUserIndex(messages) == Some(i)
    ensures Query(messages) == Content(messages[i])
  {
  }

  /** Without a user message, the query is empty. */
  lemma QueryWithoutUser(messages: seq<Message>)
    requires forall j :: 0 <= j < |messages| ==> !IsUser(messages[j])
    ensures Query(messages) == ""
  {
  }

  /** Messages after the last user message do not change the query. */
  lemma QueryIgnoresTrailing(messages: seq<Message>, tail: seq<Message>)
    requires forall j :: 0 <= j < |tail| ==> !IsUser(tail[j])
    ensures Query(messages + tail) == Query(messages)
  {
    var all := messages + tail;
    match LastUserIndex(messages)
    case None =>
      QueryWithoutUser(all);
    case Some(i) =>
      assert all[i] == messages[i];
      QueryAt(all, i);
  }

  /** What `rag_chat` answers when no query is found. */
  const MissingQueryError: string := "未找到用户消息"

  /** The fixed parts of the context prompt. */
  const Preamble: string := "以下是相关文档信息，可作为回答问题的参考：\n\n"
  const Separator: string := "\n\n"
  const Closing: string := "\n\n请基于以上文档信息回答用户的问题。"

  /** The fixed parts of a fragment label. */
  const LabelHead: string := "文档片段 "
  const LabelTail: string := ": "

  /** The label of the `i`-th retrieved text: its number counted from 1, in decimal. */
  function Label(i: nat): (l: string)
    ensures |l| > |LabelHead| + |LabelTail|
    ensures l[..|LabelHead|] == LabelHead && l[|l| - |LabelTail|..] == LabelTail
    ensures l[|LabelHead|..|l| - |LabelTail|] == NatToString(i + 1)
  {
    var l := LabelHead + NatToString(i + 1) + LabelTail;
    assert l[..|LabelHead|] == LabelHead;
    assert l[|l| - |LabelTail|..] == LabelTail;
    assert l[|LabelHead|..|l| - |LabelTail|] == NatToString(i + 1);
    l
  }

  /** The number in the label of text `i` reads back as `i + 1`. */
  lemma LabelNumber(i: nat)
    ensures var l := Label(i);
      IsDigits(l[|LabelHead|..|l| - |LabelTail|]) && ParseNat(l[|LabelHead|..|l| - |LabelTail|]) == i + 1
  {
    ParseNatToString(i + 1);
  }

  /** Each retrieved text behind its label. */
  function Labelled(texts: seq<string>): (r: seq<string>)
    ensures |r| == |texts|
  {
    seq(|texts|, i requires 0 <= i < |texts| => Label(i) + texts[i])
  }

  /** The system prompt built from the retrieved texts. */
  function BuildContext(texts: seq<string>): (c: string)
    ensures |c| >= |Preamble| + |Closing|
    ensures c[..|Preamble|] == Preamble
    ensures c[|c| - |Closing|..] == Closing
  {
    var body := Join(Separator, Labelled(texts));
    assert (Preamble + body + Closing)[..|Preamble|] == Preamble;
    assert (Preamble + body + Closing)[|Preamble + body|..] == Closing;
    Preamble + body + Closing
  }

  /**
   * The context cites every retrieved text, in order, behind its own label:
   * after the preamble come the earlier labelled texts, each followed by a
   * separator, then `文档片段 {i+1}: ` and text `i`, then a separator before each
   * later labelled text, and finally the closing sentence.
   */
  lemma ContextCitesEveryText(texts: seq<string>, i: nat)
    requires i < |texts|
    ensures BuildContext(texts)
         == Preamble + JoinBefore(Separator, Labelled(texts), i) + (Label(i) + texts[i])
            + JoinAfter(Separator, Labelled(texts), i) + Closing
  {
    var parts := Labelled(texts);
    var before, after := JoinBefore(Separator, parts, i), JoinAfter(Separator, parts, i);
    var cited := Label(i) + texts[i];
    calc {
      BuildContext(texts);
      Preamble + Join(Separator, parts) + Closing;
    == { JoinSplit(Separator, parts, i); assert parts[i] == cited; }
      Preamble + (before + cited + after) + Closing;
    == { AppendAssoc(Preamble, before + cited, after); AppendAssoc(Preamble, before, cited); }
      Preamble + before + cited + after + Closing;
    }
  }

  /** The system message that carries the context. */
  function SystemMessage(context: string): (m: Message)
    ensures m.Keys == {"role", "content"}
    ensures m["role"] == "system" && m["content"] == context && !IsUser(m)
  {
    map["role" := "system", "content" := context]
  }

  /**
   * The messages forwarded to the model: the original ones, behind a system
   * message with the context when something was retrieved.
   */
  function Augment(messages: seq<Message>, texts: seq<string>): (r: seq<Message>)
    ensures texts == [] ==> r == messages
    ensures texts != [] ==>
      && |r| == |messages| + 1
      && r[1..] == messages
      && "role" in r[0] && r[0]["role"] == "system" && !IsUser(r[0])
      && "content" in r[0] && r[0]["content"] == BuildContext(texts)
  {
    if texts == [] then messages
    else [SystemMessage(BuildContext(texts))] + messages
  }

  /** The augmented conversation still has the same query. */
  lemma AugmentKeepsQuery(messages: seq<Message>, texts: seq<string>)
    ensures Query(Augment(messages, texts)) == Query(messages)
  {
    var r := Augment(messages, texts);
    if texts != [] {
      match LastUserIndex(messages)
      case None =>
        forall j | 0 <= j < |r|
          ensures !IsUser(r[j])
        {
          if j > 0 {
            assert r[j] == messages[j - 1];
          }
        }
        QueryWithoutUser(r);
      case Some(i) =>
        assert r[i + 1] == messages[i];
        forall j | i + 1 < j < |r|
          ensures !IsUser(r[j])
        {
          assert r[j] == messages[j - 1];
        }
        QueryAt(r, i + 1);
    }
  }
}
