/**
 * The stock-alert handler: it walks a batch of record-store stream records in
 * order and publishes an out-of-stock alert for every record whose new image
 * has a count of zero. The notification service is replaced by a list of
 * topic ARNs (the answer of `list_topics`) and a log of publish calls.
 */
module CheckStock {
  import opened Wrappers
  import opened Numerals

  /** A typed attribute of a stream image: `{"S": text}`, `{"N": number-text}` or another type. */
  datatype AttributeValue = S(s: string) | N(n: string) | OtherType

  type Image = map<string, AttributeValue>

  /** One stream record; only its `NewImage` is consulted. */
  datatype StreamRecord = StreamRecord(newImage: Option<Image>)

  /** One call of `publish`. */
  datatype PublishCall = PublishCall(topicArn: string, message: string, subject: string, structure: string)

  /** The exceptions that abort the batch. */
  datatype Fault =
    | MissingKey(key: string)         // KeyError: an absent attribute, or its absent type tag 'N' or 'S'
    | InvalidLiteral(text: string)    // ValueError from int()
    | NoAlertTopic                    // IndexError: `[0]` on an empty list of topics

  /** What the loop body does with one record. */
  datatype Step = Skip | Send(alert: PublishCall) | Abort(fault: Fault)

  /** What the loop has done when it stops: the publishes made and the exception, if any. */
  datatype Outcome = Outcome(published: seq<PublishCall>, fault: Option<Fault>)

  const AlertTopicName := "NoStock"
  const AlertSubject := "Inventory Alert!"
  const RawStructure := "raw"

  // ---------------------------------------------------------------------
  // Topic selection: the list comprehension over `list_topics()` and `[0]`

  function LowerChar(c: char): char {
    if 'A' <= c <= 'Z' then (c as int + 32) as char else c
  }

  /** `str.lower()` on ASCII text. */
  function Lower(s: string): (r: string)
    ensures |r| == |s|
  {
    seq(|s|, i requires 0 <= i < |s| => LowerChar(s[i]))
  }

  predicate EndsWith(s: string, suffix: string) {
    |suffix| <= |s| && s[|s| - |suffix|..] == suffix
  }

  /** The comprehension's filter: the lower-cased ARN ends with ":nostock". */
  predicate IsAlertTopic(arn: string) {
    EndsWith(Lower(arn), ":" + Lower(AlertTopicName))
  }

  /** The comprehension `[t for t in topics if IsAlertTopic(t)]`, in list order. */
  function AlertTopics(topics: seq<string>): (r: seq<string>)
    ensures |r| <= |topics|
    ensures forall i :: 0 <= i < |r| ==> IsAlertTopic(r[i]) && r[i] in topics
    ensures forall t :: t in topics && IsAlertTopic(t) ==> t in r
  {
    if topics == [] then []
    else (if IsAlertTopic(topics[0]) then [topics[0]] else []) + AlertTopics(topics[1..])
  }

  /** `[...][0]`: `None` stands for the IndexError on an empty comprehension. */
  function SelectTopic(topics: seq<string>): Option<string> {
    var matching := AlertTopics(topics);
    if |matching| == 0 then None else Some(matching[0])
  }

  /** The selected topic is the first alert topic in list order. */
  lemma {:induction false} SelectTopicIsFirstMatch(topics: seq<string>, i: nat)
    requires i < |topics| && IsAlertTopic(topics[i])
    requires forall j :: 0 <= j < i ==> !IsAlertTopic(topics[j])
    ensures SelectTopic(topics) == Some(topics[i])
  {
    if i > 0 {
      SelectTopicIsFirstMatch(topics[1..], i - 1);
    }
  }

  /** Selection fails exactly when no topic is an alert topic. */
  lemma {:induction false} SelectTopicFailsIffNoMatch(topics: seq<string>)
    ensures SelectTopic(topics).None? <==> forall j :: 0 <= j < |topics| ==> !IsAlertTopic(topics[j])
  {
    if topics != [] {
      SelectTopicFailsIffNoMatch(topics[1..]);
      assert forall j :: 1 <= j < |topics| ==> topics[j] == topics[1..][j - 1];
    }
  }

  // ---------------------------------------------------------------------
  // One record

  /** `if newImage:` — the image is present and is not an empty map. */
  predicate HasNewImage(record: StreamRecord) {
    record.newImage.Some? && record.newImage.value != map[]
  }

  /** `image[name]['N']`: the attribute is looked up first, then its type tag. */
  function NumberAttribute(image: Image, name: string): Result<string, Fault> {
    if name !in image then Failure(MissingKey(name))
    else if !image[name].N? then Failure(MissingKey("N"))
    else Success(image[name].n)
  }

  /** `image[name]['S']`: the attribute is looked up first, then its type tag. */
  function StringAttribute(image: Image, name: string): Result<string, Fault> {
    if name !in image then Failure(MissingKey(name))
    else if !image[name].S? then Failure(MissingKey("S"))
    else Success(image[name].s)
  }

  /** `int(image['Count']['N'])` */
  function NewCount(image: Image): Result<int, Fault> {
    match NumberAttribute(image, "Count")
    case Failure(f) => Failure(f)
    case Success(text) =>
      match ParseInt(text)
      case None => Failure(InvalidLiteral(text))
      case Some(v) => Success(v)
  }

  /** The record's new image is present, non-empty, and its count converts to 0. */
  predicate OutOfStock(record: StreamRecord) {
    HasNewImage(record) && NewCount(record.newImage.value) == Success(0)
  }

  /** The f-string `f"{store} is out of stock of {item}"`. */
  function AlertMessage(store: string, item: string): (m: string)
    ensures |m| == |store| + |" is out of stock of "| + |item|
    ensures m[..|store|] == store && m[|m| - |item|..] == item
    ensures m[|store|..|m| - |item|] == " is out of stock of "
  {
    store + " is out of stock of " + item
  }

  /** The body of the `for record in event['Records']` loop. */
  function ProcessRecord(record: StreamRecord, topics: seq<string>): (step: Step)
    // A missing or empty image, and a count other than zero, are skipped without error.
    ensures step.Skip? <==>
              !HasNewImage(record)
              || (NewCount(record.newImage.value).Success? && NewCount(record.newImage.value).value != 0)
    // A record publishes only when it is out of stock; Store and Item are read only then.
    ensures step.Send? ==> OutOfStock(record)
    ensures step.Send? <==>
              OutOfStock(record)
              && StringAttribute(record.newImage.value, "Store").Success?
              && StringAttribute(record.newImage.value, "Item").Success?
              && SelectTopic(topics).Some?
    ensures step.Send? ==>
              step.alert == PublishCall(SelectTopic(topics).value,
                                    AlertMessage(record.newImage.value["Store"].s, record.newImage.value["Item"].s),
                                    AlertSubject, RawStructure)
    // The exception raised, in the order the source evaluates: Count, its literal, Store, Item, the topic.
    ensures HasNewImage(record) && "Count" !in record.newImage.value ==> step == Abort(MissingKey("Count"))
    ensures HasNewImage(record) && "Count" in record.newImage.value && !record.newImage.value["Count"].N? ==>
              step == Abort(MissingKey("N"))
    ensures (HasNewImage(record) && "Count" in record.newImage.value && record.newImage.value["Count"].N?
             && !IsIntLiteral(record.newImage.value["Count"].n)) ==>
              step == Abort(InvalidLiteral(record.newImage.value["Count"].n))
    ensures OutOfStock(record) && "Store" !in record.newImage.value ==> step == Abort(MissingKey("Store"))
    ensures OutOfStock(record) && "Store" in record.newImage.value && !record.newImage.value["Store"].S? ==>
              step == Abort(MissingKey("S"))
    ensures (OutOfStock(record) && StringAttribute(record.newImage.value, "Store").Success?
             && "Item" !in record.newImage.value) ==>
              step == Abort(MissingKey("Item"))
    ensures (OutOfStock(record) && StringAttribute(record.newImage.value, "Store").Success?
             && "Item" in record.newImage.value && !record.newImage.value["Item"].S?) ==>
              step == Abort(MissingKey("S"))
    ensures (OutOfStock(record) && StringAttribute(record.newImage.value, "Store").Success?
             && StringAttribute(record.newImage.value, "Item").Success? && SelectTopic(topics).None?) ==>
              step == Abort(NoAlertTopic)
  {
    if !HasNewImage(record) then Skip
    else
      var image := record.newImage.value;
      match NewCount(image)
      case Failure(f) => Abort(f)
      case Success(count) =>
        if count != 0 then Skip
        else
          match StringAttribute(image, "Store")
          case Failure(f) => Abort(f)
          case Success(store) =>
            match StringAttribute(image, "Item")
            case Failure(f) => Abort(f)
            case Success(item) =>
              match SelectTopic(topics)
              case None => Abort(NoAlertTopic)
              case Some(arn) => Send(PublishCall(arn, AlertMessage(store, item), AlertSubject, RawStructure))
  }

  // ---------------------------------------------------------------------
  // The batch

  /**
   * The loop over a batch, one record at a time in order: publishes accumulate,
   * and the first exception ends the loop.
   */
  function Dispatch(records: seq<StreamRecord>, topics: seq<string>): (o: Outcome)
    ensures |o.published| <= |records|
    decreases |records|
  {
    if records == [] then Outcome([], None)
    else
      var before := Dispatch(records[..|records| - 1], topics);
      if before.fault.Some? then before
      else
        match ProcessRecord(records[|records| - 1], topics)
        case Skip => before
        case Send(p) => Outcome(before.published + [p], None)
        case Abort(f) => Outcome(before.published, Some(f))
  }

  /** The positions of the records that publish, in batch order. */
  function SendIndices(records: seq<StreamRecord>, topics: seq<string>): (idx: seq<nat>)
    ensures forall m :: 0 <= m < |idx| ==> idx[m] < |records|
    ensures forall m, m' :: 0 <= m < m' < |idx| ==> idx[m] < idx[m']
    ensures forall j :: 0 <= j < |records| ==> (ProcessRecord(records[j], topics).Send? <==> j in idx)
    decreases |records|
  {
    if records == [] then []
    else
      var last := |records| - 1;
      assert forall j :: 0 <= j < last ==> records[..last][j] == records[j];
      SendIndices(records[..last], topics)
      + (if ProcessRecord(records[last], topics).Send? then [last] else [])
  }

  /** The batch completes exactly when no record raises. */
  lemma {:induction false} DispatchCompletesIffNoAbort(records: seq<StreamRecord>, topics: seq<string>)
    ensures Dispatch(records, topics).fault.None? <==>
            forall j :: 0 <= j < |records| ==> !ProcessRecord(records[j], topics).Abort?
  {
    if records != [] {
      var last := |records| - 1;
      DispatchCompletesIffNoAbort(records[..last], topics);
      assert forall j :: 0 <= j < last ==> records[..last][j] == records[j];
    }
  }

  /** Once an exception has been raised, later records change nothing. */
  lemma {:induction false} DispatchAfterFault(records: seq<StreamRecord>, topics: seq<string>, k: nat)
    requires k <= |records|
    requires Dispatch(records[..k], topics).fault.Some?
    ensures Dispatch(records, topics) == Dispatch(records[..k], topics)
    decreases |records|
  {
    if k < |records| {
      var last := |records| - 1;
      assert records[..last][..k] == records[..k];
      DispatchAfterFault(records[..last], topics, k);
    } else {
      assert records[..k] == records;
    }
  }

  /** Publishes made by a prefix of the batch stay at the head of the log. */
  lemma {:induction false} PublishedOnlyGrows(records: seq<StreamRecord>, topics: seq<string>, k: nat)
    requires k <= |records|
    ensures Dispatch(records[..k], topics).published <= Dispatch(records, topics).published
    decreases |records|
  {
    if k < |records| {
      var last := |records| - 1;
      assert records[..last][..k] == records[..k];
      PublishedOnlyGrows(records[..last], topics, k);
    } else {
      assert records[..k] == records;
    }
  }

  /**
   * At the first record that raises, the batch stops with that exception;
   * the publishes of the records before it are kept and nothing later is published.
   */
  lemma StopsAtFirstAbort(records: seq<StreamRecord>, topics: seq<string>, k: nat)
    requires k < |records| && ProcessRecord(records[k], topics).Abort?
    requires forall j :: 0 <= j < k ==> !ProcessRecord(records[j], topics).Abort?
    ensures Dispatch(records, topics).fault == Some(ProcessRecord(records[k], topics).fault)
    ensures Dispatch(records, topics).published == Dispatch(records[..k], topics).published
  {
    var prefix := records[..k + 1];
    assert prefix[..k] == records[..k];
    assert forall j :: 0 <= j < k ==> records[..k][j] == records[j];
    DispatchCompletesIffNoAbort(records[..k], topics);
    DispatchAfterFault(records, topics, k + 1);
  }

  /**
   * On a batch that completes, the log holds one alert per publishing record,
   * in batch order.
   */
  lemma {:induction false} PublishedInBatchOrder(records: seq<StreamRecord>, topics: seq<string>)
    requires Dispatch(records, topics).fault.None?
    ensures |Dispatch(records, topics).published| == |SendIndices(records, topics)|
    ensures forall m :: 0 <= m < |SendIndices(records, topics)| ==>
              Dispatch(records, topics).published[m]
              == ProcessRecord(records[SendIndices(records, topics)[m]], topics).alert
    decreases |records|
  {
    if records != [] {
      var last := |records| - 1;
      var prefix := records[..last];
      PublishedInBatchOrder(prefix, topics);
      ExtendByOne(records, topics);
    }
  }

  /** One more record extends the log and the positions alike. */
  lemma ExtendByOne(records: seq<StreamRecord>, topics: seq<string>)
    requires records != [] && Dispatch(records, topics).fault.None?
    ensures Dispatch(records[..|records| - 1], topics).fault.None?
    ensures ProcessRecord(records[|records| - 1], topics).Send? ==>
              && Dispatch(records, topics).published
                 == Dispatch(records[..|records| - 1], topics).published + [ProcessRecord(records[|records| - 1], topics).alert]
              && SendIndices(records, topics) == SendIndices(records[..|records| - 1], topics) + [|records| - 1]
    ensures !ProcessRecord(records[|records| - 1], topics).Send? ==>
              && Dispatch(records, topics).published == Dispatch(records[..|records| - 1], topics).published
              && SendIndices(records, topics) == SendIndices(records[..|records| - 1], topics)
  {
  }

  /**
   * On a batch that completes, a record publishes exactly when its new image
   * is present, non-empty and has a count that converts to 0.
   */
  lemma CompletedBatchPublishesIffOutOfStock(records: seq<StreamRecord>, topics: seq<string>)
    requires Dispatch(records, topics).fault.None?
    ensures forall j :: 0 <= j < |records| ==> (j in SendIndices(records, topics) <==> OutOfStock(records[j]))
  {
    DispatchCompletesIffNoAbort(records, topics);
  }

  /** Of the topics "arn:sns:Other" and "arn:sns:NoStock", the second is selected. */
  lemma SelectTopicExample()
    ensures SelectTopic(["arn:sns:Other", "arn:sns:NoStock"]) == Some("arn:sns:NoStock")
  {
    assert !IsAlertTopic("arn:sns:Other") by { assert Lower("arn:sns:Other")[12] == 'r'; }
    assert IsAlertTopic("arn:sns:NoStock") by { assert Lower("arn:sns:NoStock")[7..] == ":nostock"; }
    SelectTopicIsFirstMatch(["arn:sns:Other", "arn:sns:NoStock"], 1);
  }

  /** A record for store A whose Widget count dropped to 0 is sent to the selected topic. */
  lemma OutOfStockRecordExample(image: Image)
    requires image == map["Store" := S("A"), "Item" := S("Widget"), "Count" := N("0")]
    ensures ProcessRecord(StreamRecord(Some(image)), ["arn:sns:Other", "arn:sns:NoStock"])
            == Send(PublishCall("arn:sns:NoStock", AlertMessage("A", "Widget"), AlertSubject, RawStructure))
  {
    SelectTopicExample();
    assert ParseInt("0") == Some(0) by { assert AllDigits("0"); assert DigitsValue("0") == 0 by { assert "0"[..0] == []; } }
    assert "Store" in image;
    assert NewCount(image) == Success(0);
  }

  /** The alert for store A and item Widget reads "A is out of stock of Widget". */
  lemma AlertMessageExample()
    ensures AlertMessage("A", "Widget") == "A is out of stock of Widget"
  {
    var m := AlertMessage("A", "Widget");
    assert |m| == 27;
    forall i | 0 <= i < 27
      ensures m[i] == "A is out of stock of Widget"[i]
    {
    }
  }

  /** A batch of that one record publishes one alert. */
  lemma OutOfStockExample(image: Image)
    requires image == map["Store" := S("A"), "Item" := S("Widget"), "Count" := N("0")]
    ensures Dispatch([StreamRecord(Some(image))], ["arn:sns:Other", "arn:sns:NoStock"])
            == Outcome([PublishCall("arn:sns:NoStock", AlertMessage("A", "Widget"), "Inventory Alert!", "raw")], None)
  {
    var batch := [StreamRecord(Some(image))];
    OutOfStockRecordExample(image);
    assert batch[..0] == [];
  }

  /** The same record with a count of 3 publishes nothing, even with no alert topic. */
  lemma InStockExample()
    ensures
      var image := map["Store" := S("A"), "Item" := S("Widget"), "Count" := N("3")];
      Dispatch([StreamRecord(Some(image))], []) == Outcome([], None)
  {
    var image := map["Store" := S("A"), "Item" := S("Widget"), "Count" := N("3")];
    var batch := [StreamRecord(Some(image))];
    assert batch[..0] == [];
    assert ParseInt("3") == Some(3) by { assert AllDigits("3"); assert DigitsValue("3") == 3 by { assert "3"[..0] == []; } }
  }

  /** `f'Successfully processed {len(event["Records"])} records.'` */
  function ProcessedReport(n: nat): (r: string)
    ensures |r| == 32 + |Show(n)|
    ensures r[..23] == "Successfully processed " && r[|r| - 9..] == " records."
    ensures ParseInt(r[23..|r| - 9]) == Some(n)
  {
    ParseShowRoundTrip(n);
    var r := "Successfully processed " + Show(n) + " records.";
    assert r[23..|r| - 9] == Show(n);
    r
  }

  // ---------------------------------------------------------------------
  // The handler

  /** The notification service as the handler sees it. */
  class NotificationService {
    /** The ARNs `list_topics` answers with, in its order. */
    const topics: seq<string>
    /** Every `publish` call made so far, oldest first. */
    var published: seq<PublishCall>

    constructor (topics: seq<string>)
      ensures this.topics == topics && published == []
    {
      this.topics := topics;
      published := [];
    }

    method Publish(call: PublishCall)
      modifies this
      ensures published == old(published) + [call]
    {
      published := published + [call];
    }
  }

  /**
   * `lambda_handler`: the log gains exactly the publishes of `Dispatch`, and the
   * handler returns the report on the batch size or raises the first fault.
   */
  method HandleStreamBatch(records: seq<StreamRecord>, sns: NotificationService) returns (r: Result<string, Fault>)
    modifies sns
    ensures sns.published == old(sns.published) + Dispatch(records, sns.topics).published
    ensures Dispatch(records, sns.topics).fault.None? ==> r == Success(ProcessedReport(|records|))
    ensures Dispatch(records, sns.topics).fault.Some? ==> r == Failure(Dispatch(records, sns.topics).fault.value)
  {
    var i := 0;
    while i < |records|
      invariant 0 <= i <= |records|
      invariant Dispatch(records[..i], sns.topics).fault.None?
      invariant sns.published == old(sns.published) + Dispatch(records[..i], sns.topics).published
    {
      var record := records[i];
      assert records[..i + 1][..i] == records[..i];
      if HasNewImage(record) {
        var image := record.newImage.value;
        var count := NewCount(image);
        if count.Failure? {
          DispatchAfterFault(records, sns.topics, i + 1);
          return Failure(count.error);
        }
        if count.value == 0 {
          var store := StringAttribute(image, "Store");
          if store.Failure? {
            DispatchAfterFault(records, sns.topics, i + 1);
            return Failure(store.error);
          }
          var item := StringAttribute(image, "Item");
          if item.Failure? {
            DispatchAfterFault(records, sns.topics, i + 1);
            return Failure(item.error);
          }
          var message := AlertMessage(store.value, item.value);
          var arn := SelectTopic(sns.topics);
          if arn.None? {
            DispatchAfterFault(records, sns.topics, i + 1);
            return Failure(NoAlertTopic);
          }
          sns.Publish(PublishCall(arn.value, message, AlertSubject, RawStructure));
        }
      }
      i := i + 1;
    }
    assert records[..i] == records;
    return Success(ProcessedReport(|records|));
  }
}
