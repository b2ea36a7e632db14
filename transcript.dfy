/** `processMessages`: the messages in timestamp order, rendered and concatenated. */
module Transcript {
  import opened JsValues
  import opened Orpg
  import opened Ordering
  import opened Render
  import opened StableSort

  /** The strings of `parts` joined in order, as repeated `+=` leaves them. */
  function Concat(parts: seq<string>): string {
    if parts == [] then "" else Concat(parts[..|parts| - 1]) + parts[|parts| - 1]
  }

  /** One Markdown fragment per message, in the messages' order. */
  function Fragments(messages: seq<Message>, characters: map<string, Character>): (parts: seq<string>)
    ensures |parts| == |messages|
    ensures forall i {:trigger MessageToMarkdown(messages[i], characters)} :: 0 <= i < |messages| ==> parts[i] == MessageToMarkdown(messages[i], characters)
  {
    if messages == [] then []
    else [MessageToMarkdown(messages[0], characters)] + Fragments(messages[1..], characters)
  }

  /** The Markdown the converter writes for `doc`. */
  function Markdown(doc: Document): string {
    Concat(Fragments(Sort(doc.messages), doc.characters))
  }

  /**
   * `processMessages`: copy the message values into an array, sort it in place by
   * `updatedAt`, then render it.
   */
  method ProcessMessages(doc: Document) returns (markdown: string)
    ensures markdown == Markdown(doc)
  {
    var messages := new Message[|doc.messages|](i requires 0 <= i < |doc.messages| => doc.messages[i]);
    assert messages[..] == doc.messages;
    SortByUpdatedAt(messages);
    markdown := RenderAll(messages, doc.characters);
  }

  /** The loop of `processMessages`: `markdown += convertMessageToMarkdown(message, ...)`. */
  method RenderAll(messages: array<Message>, characters: map<string, Character>) returns (markdown: string)
    ensures markdown == Concat(Fragments(messages[..], characters))
  {
    ghost var parts := Fragments(messages[..], characters);
    markdown := "";
    for i := 0 to messages.Length
      invariant markdown == Concat(parts[..i])
    {
      assert parts[i] == MessageToMarkdown(messages[..][i], characters);
      ConcatStep(parts, i);
      markdown := markdown + MessageToMarkdown(messages[i], characters);
    }
    assert parts[..messages.Length] == parts;
  }

  /** One turn of the loop: the next fragment goes at the end. */
  lemma ConcatStep(parts: seq<string>, i: nat)
    requires i < |parts|
    ensures Concat(parts[..i + 1]) == Concat(parts[..i]) + parts[i]
  {
    assert parts[..i + 1][..i] == parts[..i];
  }

  lemma {:induction false} ConcatAppend(a: seq<string>, b: seq<string>)
    ensures Concat(a + b) == Concat(a) + Concat(b)
    decreases |b|
  {
    if b == [] {
      assert a + b == a;
    } else {
      var front, last := b[..|b| - 1], b[|b| - 1];
      assert a + b == (a + front) + [last];
      assert (a + b)[..|a + b| - 1] == a + front && (a + b)[|a + b| - 1] == last;
      assert Concat(a + b) == Concat(a + front) + last;
      assert Concat(b) == Concat(front) + last;
      ConcatAppend(a, front);
    }
  }

  /**
   * The transcript is the fragments of the sorted messages laid end to end: the
   * `i`-th sorted message's fragment sits right after the fragments of those before it.
   */
  lemma TranscriptLayout(doc: Document, i: nat)
    requires i < |doc.messages|
    ensures var sorted := Sort(doc.messages);
      var start := |Concat(Fragments(sorted, doc.characters)[..i])|;
      var fragment := MessageToMarkdown(sorted[i], doc.characters);
      && start + |fragment| <= |Markdown(doc)|
      && Markdown(doc)[start..start + |fragment|] == fragment
  {
    var sorted := Sort(doc.messages);
    var parts := Fragments(sorted, doc.characters);
    PartInTranscript(doc, parts, i);
    assert parts[i] == MessageToMarkdown(sorted[i], doc.characters);
  }

  /** Where the `i`-th of the sorted fragments sits in the transcript. */
  lemma PartInTranscript(doc: Document, parts: seq<string>, i: nat)
    requires parts == Fragments(Sort(doc.messages), doc.characters) && i < |doc.messages|
    ensures var start := |Concat(parts[..i])|;
      && start + |parts[i]| <= |Markdown(doc)|
      && Markdown(doc)[start..start + |parts[i]|] == parts[i]
  {
    ConcatAt(parts, i);
  }

  /** The `i`-th part of a join starts where the join of the parts before it ends. */
  lemma ConcatAt(parts: seq<string>, i: nat)
    requires i < |parts|
    ensures |Concat(parts[..i])| + |parts[i]| <= |Concat(parts)|
    ensures Concat(parts)[|Concat(parts[..i])|..|Concat(parts[..i])| + |parts[i]|] == parts[i]
  {
    assert parts == parts[..i] + [parts[i]] + parts[i + 1..];
    ConcatAppend(parts[..i] + [parts[i]], parts[i + 1..]);
    ConcatStep(parts, i);
    assert parts[..i + 1] == parts[..i] + [parts[i]];
  }

  /** Every fragment is non-empty: it holds at least its heading. */
  lemma {:induction false} ConcatNonEmpty(parts: seq<string>)
    requires forall i :: 0 <= i < |parts| ==> parts[i] != ""
    ensures Concat(parts) == "" <==> parts == []
    decreases |parts|
  {
    if parts != [] {
      ConcatNonEmpty(parts[..|parts| - 1]);
    }
  }

  /** The transcript is empty exactly when there are no messages. */
  lemma TranscriptEmptyIff(doc: Document)
    ensures Markdown(doc) == "" <==> doc.messages == []
  {
    var sorted := Sort(doc.messages);
    var parts := Fragments(sorted, doc.characters);
    forall i | 0 <= i < |parts|
      ensures parts[i] != ""
    {
      assert parts[i] == MessageToMarkdown(sorted[i], doc.characters);
    }
    ConcatNonEmpty(parts);
  }

  /** No two messages share a timestamp. */
  ghost predicate DistinctStamps(s: seq<Message>) {
    forall i, j :: 0 <= i < j < |s| ==> s[i].updatedAt != s[j].updatedAt
  }

  /** Two positions of `t` hold two occurrences in its multiset, equal or not. */
  lemma PairInMultiset(t: seq<Message>, i: int, j: int)
    requires 0 <= i < j < |t|
    ensures multiset{t[i]} + multiset{t[j]} <= multiset(t)
  {
    assert t == t[..j] + [t[j]] + t[j + 1..];
    assert t[i] == t[..j][i];
  }

  /** Two occurrences in the multiset of `s` sit at two different positions of `s`. */
  lemma PositionsOfPair(s: seq<Message>, x: Message, y: Message) returns (p: int, q: int)
    requires multiset{x} + multiset{y} <= multiset(s)
    ensures 0 <= p < |s| && 0 <= q < |s| && p != q
    ensures s[p] == y && s[q] == x
  {
    assert y in multiset(s);
    p :| 0 <= p < |s| && s[p] == y;
    assert s == s[..p] + [y] + s[p + 1..];
    var rest := multiset(s[..p]) + multiset(s[p + 1..]);
    assert multiset(s) == rest + multiset{y};
    assert (multiset{x} + multiset{y})[x] <= (rest + multiset{y})[x];
    if x in s[..p] {
      var k :| 0 <= k < p && s[..p][k] == x;
      q := k;
    } else {
      assert x in multiset(s[p + 1..]);
      var k :| 0 <= k < |s[p + 1..]| && s[p + 1..][k] == x;
      q := p + 1 + k;
    }
  }

  /** Reordering the messages keeps their timestamps distinct. */
  lemma DistinctStampsOfReordering(s: seq<Message>, t: seq<Message>)
    requires multiset(s) == multiset(t)
    requires DistinctStamps(s)
    ensures DistinctStamps(t)
  {
    forall i, j | 0 <= i < j < |t|
      ensures t[i].updatedAt != t[j].updatedAt
    {
      PairInMultiset(t, i, j);
      var p, q := PositionsOfPair(s, t[i], t[j]);
      assert s[p].updatedAt != s[q].updatedAt;
    }
  }

  lemma {:induction false} WithStampNone(s: seq<Message>, stamp: string)
    requires forall i :: 0 <= i < |s| ==> s[i].updatedAt != stamp
    ensures WithStamp(s, stamp) == []
    decreases |s|
  {
    if s != [] {
      WithStampNone(s[1..], stamp);
    }
  }

  lemma {:induction false} WithStampAtMostOne(s: seq<Message>, stamp: string)
    requires DistinctStamps(s)
    ensures |WithStamp(s, stamp)| <= 1
    decreases |s|
  {
    if s != [] {
      if s[0].updatedAt == stamp {
        forall i | 0 <= i < |s[1..]|
          ensures s[1..][i].updatedAt != stamp
        {
          assert s[1..][i] == s[i + 1];
        }
        WithStampNone(s[1..], stamp);
      } else {
        assert DistinctStamps(s[1..]) by {
          forall i, j | 0 <= i < j < |s[1..]|
            ensures s[1..][i].updatedAt != s[1..][j].updatedAt
          {
            assert s[1..][i] == s[i + 1] && s[1..][j] == s[j + 1];
          }
        }
        WithStampAtMostOne(s[1..], stamp);
      }
    }
  }

  /** With distinct timestamps, a timestamp picks the same message out of any ordering. */
  lemma WithStampOfReordering(s: seq<Message>, t: seq<Message>, stamp: string)
    requires multiset(s) == multiset(t)
    requires DistinctStamps(s) && DistinctStamps(t)
    ensures WithStamp(s, stamp) == WithStamp(t, stamp)
  {
    WithStampAtMostOne(s, stamp);
    WithStampAtMostOne(t, stamp);
    var a, b := WithStamp(s, stamp), WithStamp(t, stamp);
    if a != [] {
      WithStampMember(s, stamp, a[0]);
      assert a[0] in multiset(t);
      WithStampMember(t, stamp, a[0]);
    }
    if b != [] {
      WithStampMember(t, stamp, b[0]);
      assert b[0] in multiset(s);
      WithStampMember(s, stamp, b[0]);
    }
  }

  /**
   * When no two messages share a timestamp, the order in which `Object.values`
   * yields them does not change the transcript.
   */
  lemma TranscriptIgnoresInputOrder(doc: Document, reordered: seq<Message>)
    requires multiset(reordered) == multiset(doc.messages)
    requires DistinctStamps(doc.messages)
    ensures Markdown(doc.(messages := reordered)) == Markdown(doc)
  {
    DistinctStampsOfReordering(doc.messages, reordered);
    SortIsStableSort(reordered);
    forall stamp
      ensures WithStamp(Sort(reordered), stamp) == WithStamp(doc.messages, stamp)
    {
      WithStampOfReordering(reordered, doc.messages, stamp);
    }
    StableSortIsUnique(doc.messages, Sort(reordered));
  }

  lemma ConcatPair(a: string, b: string)
    ensures Concat([a, b]) == a + b
  {
    assert [a, b][..1] == [a] && [a][..0] == [];
    assert Concat([a]) == Concat([]) + a;
  }

  /**
   * Two messages: the later-stamped one is rendered second; on a tie they keep the
   * order they arrive in, so there the input order does show in the transcript.
   */
  lemma TwoMessageTranscript(doc: Document, first: Message, second: Message)
    requires doc.messages == [first, second]
    ensures var one, two := MessageToMarkdown(first, doc.characters), MessageToMarkdown(second, doc.characters);
      && (NotAfter(first, second) ==> Markdown(doc) == one + two)
      && (!NotAfter(first, second) ==> Markdown(doc) == two + one)
      && (first.updatedAt == second.updatedAt ==> Markdown(doc) == one + two)
  {
    var one, two := MessageToMarkdown(first, doc.characters), MessageToMarkdown(second, doc.characters);
    assert doc.messages[..1] == [first];
    assert Sort([first]) == [first];
    LexLeReflexive(first.updatedAt);
    ConcatPair(one, two);
    ConcatPair(two, one);
    if NotAfter(first, second) {
      assert Sort(doc.messages) == [first, second];
      assert Fragments([first, second], doc.characters) == [one, two];
    } else {
      assert Sort(doc.messages) == [second, first];
      assert Fragments([second, first], doc.characters) == [two, one];
    }
  }

  /** The fixture of the repository's own test: two messages and one character. */
  const HaikuId: string := "char-1735038715-DS8UZX2WvLJWGqaEBiot"
  const HaikuName: string := "Claude 3.5 Haiku (2024-10-22) (self-moderated)"
  const Question: Message := Message("USER", "How many r's are in the word strawberry?", "2024-12-25T23:37:06.203Z")
  const Reply: Message := Message(HaikuId,
    "Let me help you count the r's in \"strawberry\":\n\nst*r*awbe*r*y\n\nThere are 2 r's in the word \"strawberry\".",
    "2024-12-25T23:37:07.790Z")
  const Strawberry: Document := Document(Some("orpg.1.0"),
    map[HaikuId := Character(Some(ModelInfo(Some(HaikuName), None)))],
    [Reply, Question])

  /** The reply's timestamp sorts after the question's. */
  lemma ReplyStampedLater()
    ensures !NotAfter(Reply, Question)
  {
    var common := "2024-12-25T23:37:0";
    assert Reply.updatedAt == common + "7.790Z" && Question.updatedAt == common + "6.203Z";
    LexLeCommonPrefix(common, "7.790Z", "6.203Z");
  }

  /**
   * The AI's reply is listed first but stamped later, so the transcript opens with the
   * user's question under `#### You:`, and the reply follows under the short name.
   */
  lemma StrawberryConversation()
    ensures Markdown(Strawberry)
      == ("#### You:" + "\n\n" + Question.content + "\n\n")
      + ("#### " + HaikuName + ":" + "\n\n" + Reply.content + "\n\n")
  {
    ReplyStampedLater();
    assert AIName(HaikuId, Strawberry.characters) == HaikuName;
    TwoMessageTranscript(Strawberry, Reply, Question);
  }
}
