/**
 * `convert_to_conversation_format`: turns question-level training items
 * into two-message conversations (the human's question text, then the
 * model's XML), skipping items whose similarity score is below the
 * threshold or whose text or XML is blank.
 */
module ConversationFormat {
  import opened Text
  import opened Lists

  /** One training item as loaded from JSON; any of the three fields read here may be missing. */
  datatype Item = Item(naturalLanguage: Option<string>, xmlCode: Option<string>, similarityScore: Option<real>)

  datatype Message = Message(from: string, value: string)

  /** `{'conversations': [human, gpt]}`: the record carries nothing else. */
  datatype Conversation = Conversation(conversations: seq<Message>)

  /** `item.get(key, '')`. */
  function OrEmpty(o: Option<string>): string {
    if o.Some? then o.value else ""
  }

  /** `item.get('natural_language', '').strip()`. */
  function HumanText(item: Item): string {
    Strip(OrEmpty(item.naturalLanguage))
  }

  /** `item.get('xml_code', '').strip()`. */
  function GptText(item: Item): string {
    Strip(OrEmpty(item.xmlCode))
  }

  /** `item.get('similarity_score', 0)`. */
  function Score(item: Item): real {
    if item.similarityScore.Some? then item.similarityScore.value else 0.0
  }

  /** Neither skip condition holds. */
  predicate Qualifies(item: Item, minSimilarity: real) {
    !(Score(item) < minSimilarity) && HumanText(item) != [] && GptText(item) != []
  }

  function ToConversation(item: Item): Conversation {
    Conversation([Message("human", HumanText(item)), Message("gpt", GptText(item))])
  }

  function Qualifier(minSimilarity: real): Item -> bool {
    item => Qualifies(item, minSimilarity)
  }

  function Disqualifier(minSimilarity: real): Item -> bool {
    item => !Qualifies(item, minSimilarity)
  }

  /** The conversations of the qualifying items, in input order. */
  function Converted(data: seq<Item>, minSimilarity: real): seq<Conversation> {
    Map(Filter(data, Qualifier(minSimilarity)), ToConversation)
  }

  /** How many items meet a skip condition. */
  function Skipped(data: seq<Item>, minSimilarity: real): nat {
    |Filter(data, Disqualifier(minSimilarity))|
  }

  /** Every item converted, qualifying or not. */
  function AllConverted(data: seq<Item>): seq<Conversation> {
    Map(data, ToConversation)
  }

  /** A qualifying item adds its conversation and no skip. */
  lemma ConvertedKeep(data: seq<Item>, i: nat, minSimilarity: real)
    requires i < |data| && Qualifier(minSimilarity)(data[i])
    ensures Converted(data[..i + 1], minSimilarity) == Converted(data[..i], minSimilarity) + [ToConversation(data[i])]
    ensures Skipped(data[..i + 1], minSimilarity) == Skipped(data[..i], minSimilarity)
  {
    FilterStep(data, i, Qualifier(minSimilarity));
    FilterStep(data, i, Disqualifier(minSimilarity));
    MapSnoc(Filter(data[..i], Qualifier(minSimilarity)), data[i], ToConversation);
  }

  /** Any other item adds a skip and no conversation. */
  lemma ConvertedSkip(data: seq<Item>, i: nat, minSimilarity: real)
    requires i < |data| && Disqualifier(minSimilarity)(data[i])
    ensures Converted(data[..i + 1], minSimilarity) == Converted(data[..i], minSimilarity)
    ensures Skipped(data[..i + 1], minSimilarity) == Skipped(data[..i], minSimilarity) + 1
  {
    FilterStep(data, i, Qualifier(minSimilarity));
    FilterStep(data, i, Disqualifier(minSimilarity));
  }

  /** Each item is either converted or counted as skipped. */
  lemma ConvertedAccounts(data: seq<Item>, minSimilarity: real)
    ensures |Converted(data, minSimilarity)| + Skipped(data, minSimilarity) == |data|
  {
    FilterPartition(data, Qualifier(minSimilarity), Disqualifier(minSimilarity));
  }

  /** `convert_to_conversation_format`, with the skipped count it reports. */
  method ConvertToConversationFormat(data: seq<Item>, minSimilarity: real) returns (conversations: seq<Conversation>, skipped: nat)
    ensures conversations == Converted(data, minSimilarity)
    ensures skipped == Skipped(data, minSimilarity)
    ensures |conversations| + skipped == |data|
  {
    conversations := [];
    skipped := 0;
    var i := 0;
    while i < |data|
      invariant 0 <= i <= |data|
      invariant conversations == Converted(data[..i], minSimilarity)
      invariant skipped == Skipped(data[..i], minSimilarity)
    {
      var item := data[i];
      var naturalLanguage := HumanText(item);
      var xmlCode := GptText(item);
      var similarityScore := Score(item);
      if similarityScore < minSimilarity {
        ConvertedSkip(data, i, minSimilarity);
        skipped := skipped + 1;
      } else if naturalLanguage == [] || xmlCode == [] {
        ConvertedSkip(data, i, minSimilarity);
        skipped := skipped + 1;
      } else {
        ConvertedKeep(data, i, minSimilarity);
        conversations := conversations + [Conversation([Message("human", naturalLanguage), Message("gpt", xmlCode)])];
      }
      i := i + 1;
    }
    assert data[..i] == data;
    ConvertedAccounts(data, minSimilarity);
  }

  /** Every conversation comes from a qualifying item. */
  lemma ConvertedSound(data: seq<Item>, minSimilarity: real)
    ensures forall c :: c in Converted(data, minSimilarity) ==>
      exists i :: 0 <= i < |data| && Qualifies(data[i], minSimilarity) && c == ToConversation(data[i])
  {
    var kept := Filter(data, Qualifier(minSimilarity));
    FilterSubseq(data, Qualifier(minSimilarity));
    forall c | c in Converted(data, minSimilarity)
      ensures exists i :: 0 <= i < |data| && Qualifies(data[i], minSimilarity) && c == ToConversation(data[i])
    {
      var j :| 0 <= j < |kept| && c == ToConversation(kept[j]);
      assert kept[j] in kept;
      var i :| 0 <= i < |data| && data[i] == kept[j];
    }
  }

  /** Every qualifying item is converted. */
  lemma ConvertedComplete(data: seq<Item>, minSimilarity: real)
    ensures forall i :: 0 <= i < |data| && Qualifies(data[i], minSimilarity) ==> ToConversation(data[i]) in Converted(data, minSimilarity)
  {
    var kept := Filter(data, Qualifier(minSimilarity));
    FilterComplete(data, Qualifier(minSimilarity));
    forall i | 0 <= i < |data| && Qualifies(data[i], minSimilarity)
      ensures ToConversation(data[i]) in Converted(data, minSimilarity)
    {
      assert Qualifier(minSimilarity)(data[i]);
      var j :| 0 <= j < |kept| && kept[j] == data[i];
      assert Converted(data, minSimilarity)[j] == ToConversation(data[i]);
    }
  }

  /** The output keeps input order: it is the list of all conversions with some left out. */
  lemma ConvertedInOrder(data: seq<Item>, minSimilarity: real)
    ensures Subseq(Converted(data, minSimilarity), AllConverted(data))
  {
    FilterSubseq(data, Qualifier(minSimilarity));
    MapSubseq(Filter(data, Qualifier(minSimilarity)), data, ToConversation);
  }

  /** Each conversation is a human message and then a gpt message, both stripped and non-empty. */
  lemma ConvertedShape(data: seq<Item>, minSimilarity: real)
    ensures forall c :: c in Converted(data, minSimilarity) ==>
      && |c.conversations| == 2
      && c.conversations[0].from == "human" && c.conversations[1].from == "gpt"
      && c.conversations[0].value != [] && IsStripped(c.conversations[0].value)
      && c.conversations[1].value != [] && IsStripped(c.conversations[1].value)
  {
    ConvertedSound(data, minSimilarity);
    forall c | c in Converted(data, minSimilarity)
      ensures |c.conversations| == 2
      ensures c.conversations[0].from == "human" && c.conversations[1].from == "gpt"
      ensures c.conversations[0].value != [] && IsStripped(c.conversations[0].value)
      ensures c.conversations[1].value != [] && IsStripped(c.conversations[1].value)
    {
      var i :| 0 <= i < |data| && Qualifies(data[i], minSimilarity) && c == ToConversation(data[i]);
      StripIsStripped(OrEmpty(data[i].naturalLanguage));
      StripIsStripped(OrEmpty(data[i].xmlCode));
    }
  }

  /** An item without a score is read as scoring 0, so it is only kept by a threshold of at most 0. */
  lemma MissingScoreIsZero(item: Item, minSimilarity: real)
    requires item.similarityScore.None?
    ensures Qualifies(item, minSimilarity) <==> minSimilarity <= 0.0 && HumanText(item) != [] && GptText(item) != []
  {
  }

  /** Raising the threshold only drops conversations. */
  lemma ThresholdMonotone(data: seq<Item>, low: real, high: real)
    requires low <= high
    ensures Subseq(Converted(data, high), Converted(data, low))
  {
    FilterMonotone(data, Qualifier(high), Qualifier(low));
    MapSubseq(Filter(data, Qualifier(high)), Filter(data, Qualifier(low)), ToConversation);
  }
}
