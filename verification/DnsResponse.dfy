/** The answer to a name query: section 4.1 of RFC 1035. */
module DnsResponse {
  import opened Words
  import opened Options
  import opened Splitting
  import opened DnsNames

  const ENOENT := 2
  const HEADER_SIZE := 12

  /** What a response is read as; Overrun is an address that runs over its end. */
  datatype Outcome = Address(ip: UInt32) | NotFound | Invalid | Overrun

  function Word(d: seq<Byte>, at: nat): UInt16
    requires at + 1 < |d|
  {
    (d[at] as int) * 0x100 + d[at + 1]
  }

  function LongWord(d: seq<Byte>, at: nat): UInt32
    requires at + 3 < |d|
  {
    Word(d, at) * 0x1_0000 + Word(d, at + 2)
  }

  /** Where the root label that ends the question's name stands; None when a label is too long. */
  function QuestionEnd(d: seq<Byte>, at: nat): Option<nat>
    decreases |d| - at
  {
    if at >= |d| || d[at] == 0 then Some(at)
    else if d[at] > 63 then None
    else QuestionEnd(d, at + d[at] + 1)
  }

  /** The same walk over a record's name, which takes any length byte. */
  function LabelsEnd(d: seq<Byte>, at: nat): (end: nat)
    ensures at <= end
    decreases |d| - at
  {
    if at >= |d| || d[at] == 0 then at else LabelsEnd(d, at + d[at] + 1)
  }

  /** Behind a record's name: a pointer is recognised in its first byte only. */
  function NameEnd(d: seq<Byte>, at: nat): (end: nat)
    requires at < |d|
    ensures at < end
  {
    if d[at] >= 0xC0 then at + 2 else LabelsEnd(d, at) + 1
  }

  function AnswersFrom(d: seq<Byte>, at: nat, answers: nat): Outcome
    decreases answers
  {
    if answers == 0 || at >= |d| then NotFound
    else
      var body := NameEnd(d, at);
      if body + 10 > |d| then Invalid
      else if Word(d, body) == 1 && Word(d, body + 8) == 4 then
        if body + 14 > |d| then Overrun else Address(LongWord(d, body + 10))
      else AnswersFrom(d, body + 10 + Word(d, body + 8), answers - 1)
  }

  function ParseResponse(d: seq<Byte>): Outcome {
    if |d| < HEADER_SIZE then Invalid
    else if Word(d, 6) == 0 then NotFound
    else
      match QuestionEnd(d, HEADER_SIZE)
      case None => Invalid
      case Some(end) => if end + 5 >= |d| then Invalid else AnswersFrom(d, end + 5, Word(d, 6))
  }

  // ---------- Which responses are read behind their end ----------

  /** The fixed part of the record at an offset lies in the response. */
  predicate HasHead(d: seq<Byte>, at: nat) {
    at < |d| && NameEnd(d, at) + 10 <= |d|
  }

  /** The fixed part at an offset announces an address. */
  predicate AnnouncesAddress(d: seq<Byte>, body: nat)
    requires body + 10 <= |d|
  {
    Word(d, body) == 1 && Word(d, body + 8) == 4
  }

  /** The record at an offset announces an address that the response does not hold. */
  predicate OverrunsAt(d: seq<Byte>, at: nat) {
    HasHead(d, at) && AnnouncesAddress(d, NameEnd(d, at)) && |d| < NameEnd(d, at) + 14
  }

  /** The parser comes to the record at p when so many records are said to start at an offset. */
  predicate Comes(d: seq<Byte>, at: nat, answers: nat, p: nat)
    decreases answers
  {
    answers > 0
    && (p == at
        || (HasHead(d, at) && !AnnouncesAddress(d, NameEnd(d, at))
            && Comes(d, NameEnd(d, at) + 10 + Word(d, NameEnd(d, at) + 8), answers - 1, p)))
  }

  /** It comes to a record that takes it behind the end. */
  ghost predicate RecordsOverrun(d: seq<Byte>, at: nat, answers: nat) {
    exists p: nat :: Comes(d, at, answers, p) && OverrunsAt(d, p)
  }

  ghost predicate Overruns(d: seq<Byte>) {
    |d| >= HEADER_SIZE
    && match QuestionEnd(d, HEADER_SIZE)
       case None => false
       case Some(end) => end + 5 < |d| && RecordsOverrun(d, end + 5, Word(d, 6))
  }

  lemma RecordsOverrunStep(d: seq<Byte>, at: nat, answers: nat)
    ensures answers == 0 ==> !RecordsOverrun(d, at, answers)
    ensures answers > 0 ==>
              (RecordsOverrun(d, at, answers)
               <==> OverrunsAt(d, at)
                    || (HasHead(d, at) && !AnnouncesAddress(d, NameEnd(d, at))
                        && RecordsOverrun(d, NameEnd(d, at) + 10 + Word(d, NameEnd(d, at) + 8), answers - 1)))
  {
    hide NameEnd, Word, AnnouncesAddress, OverrunsAt;
    if answers > 0 {
      assert Comes(d, at, answers, at);
      if HasHead(d, at) && !AnnouncesAddress(d, NameEnd(d, at)) {
        var next := NameEnd(d, at) + 10 + Word(d, NameEnd(d, at) + 8);
        if RecordsOverrun(d, next, answers - 1) {
          var p: nat :| Comes(d, next, answers - 1, p) && OverrunsAt(d, p);
          assert Comes(d, at, answers, p);
        }
      }
    }
  }

  lemma AnswersOverrunStep(d: seq<Byte>, at: nat, answers: nat)
    ensures answers == 0 ==> AnswersFrom(d, at, answers) != Overrun
    ensures answers > 0 ==>
              (AnswersFrom(d, at, answers) == Overrun
               <==> OverrunsAt(d, at)
                    || (HasHead(d, at) && !AnnouncesAddress(d, NameEnd(d, at))
                        && AnswersFrom(d, NameEnd(d, at) + 10 + Word(d, NameEnd(d, at) + 8), answers - 1) == Overrun))
  {
    hide NameEnd, Word, LongWord;
  }

  lemma {:induction false} AnswersOverrunIff(d: seq<Byte>, at: nat, answers: nat)
    ensures AnswersFrom(d, at, answers) == Overrun <==> RecordsOverrun(d, at, answers)
    decreases answers
  {
    hide AnswersFrom, RecordsOverrun, NameEnd, Word, AnnouncesAddress, OverrunsAt;
    RecordsOverrunStep(d, at, answers);
    AnswersOverrunStep(d, at, answers);
    if answers > 0 && HasHead(d, at) {
      AnswersOverrunIff(d, NameEnd(d, at) + 10 + Word(d, NameEnd(d, at) + 8), answers - 1);
    }
  }

  /** Whatever the bytes, the parser reads behind their end exactly when it comes to such a record. */
  lemma ResponseOverrunsIff(d: seq<Byte>)
    ensures ParseResponse(d) == Overrun <==> Overruns(d)
  {
    hide AnswersFrom, RecordsOverrun, QuestionEnd;
    if |d| >= HEADER_SIZE && QuestionEnd(d, HEADER_SIZE).Some? {
      var at := QuestionEnd(d, HEADER_SIZE).value + 5;
      AnswersOverrunIff(d, at, Word(d, 6));
      RecordsOverrunStep(d, at, 0);
    }
  }

  /** It is enough to look at the last thirteen bytes: no type 1 with length 4 announced in them. */
  lemma NoLateAddressIsRead(d: seq<Byte>)
    requires forall k: nat | k + 10 <= |d| < k + 14 :: !AnnouncesAddress(d, k)
    ensures ParseResponse(d) != Overrun
  {
    assert forall p: nat :: !OverrunsAt(d, p);
    hide QuestionEnd, OverrunsAt, Comes;
    ResponseOverrunsIff(d);
  }

  // ---------- The parser ----------

  /** Reads a response; ip is what is stored for the caller, on success only. */
  method ParseDNSResponse(response: seq<Byte>) returns (result: int, ip: Option<UInt32>)
    requires |response| < 0x7FFF_0000 && !Overruns(response)
    ensures match ParseResponse(response)
            case Address(a) => result == 0 && ip == Some(a)
            case NotFound => result == -2 && ip == None
            case Invalid => result == -22 && ip == None
            case Overrun => false
  {
    ResponseOverrunsIff(response);
    hide Word, LongWord, Overruns;
    ip := None;
    var responseLen := |response|;
    if responseLen < HEADER_SIZE {
      return -EINVAL, None;
    }
    var answers := Word(response, 6);
    if answers == 0 {
      return -ENOENT, None;
    }
    var offset := HEADER_SIZE;
    while offset < responseLen && response[offset] != 0
      invariant 0 <= offset
      invariant QuestionEnd(response, HEADER_SIZE) == QuestionEnd(response, offset)
    {
      var labelLen := response[offset];
      if labelLen > 63 {
        return -EINVAL, None;
      }
      offset := offset + labelLen + 1;
    }
    offset := offset + 1;
    offset := offset + 4;
    if offset >= responseLen {
      return -EINVAL, None;
    }
    while answers > 0 && offset < responseLen
      invariant 0 <= offset && 0 <= answers
      invariant ParseResponse(response) == AnswersFrom(response, offset, answers)
      decreases answers
    {
      if response[offset] / 0x40 == 3 {
        offset := offset + 2;
      } else {
        ghost var start := offset;
        while offset < responseLen && response[offset] != 0
          invariant start <= offset && LabelsEnd(response, start) == LabelsEnd(response, offset)
        {
          offset := offset + response[offset] + 1;
        }
        offset := offset + 1;
      }
      if offset + 10 > responseLen {
        return -EINVAL, None;
      }
      var kind, dataLen := Word(response, offset), Word(response, offset + 8);
      offset := offset + 10;
      if kind == 1 && dataLen == 4 {
        return 0, Some(LongWord(response, offset));
      }
      offset := offset + dataLen;
      answers := answers - 1;
    }
    return -ENOENT, None;
  }

  // ---------- What a server sends ----------

  /** A record's name: a pointer to an earlier name, or all its labels. */
  datatype Name = Pointer(hi: Byte, lo: Byte) | Labels(labels: seq<seq<Byte>>)
  {
    predicate Valid() {
      match this
      case Pointer(hi, _) => hi >= 0xC0
      case Labels(labels) => AreLabels(labels)
    }

    function Bytes(): seq<Byte>
      requires Valid()
    {
      match this
      case Pointer(hi, lo) => [hi, lo]
      case Labels(labels) => NameBytes(labels)
    }
  }

  function WordBytes(x: UInt16): (b: seq<Byte>)
    ensures |b| == 2
  {
    [x / 0x100, x % 0x100]
  }

  function LongBytes(x: UInt32): (b: seq<Byte>)
    ensures |b| == 4
  {
    [x / 0x100_0000, x / 0x1_0000 % 0x100, x / 0x100 % 0x100, x % 0x100]
  }

  datatype Record = Record(name: Name, kind: UInt16, class_: UInt16, ttl: UInt32, data: seq<Byte>)
  {
    predicate Valid() {
      name.Valid() && |data| < TWO16
    }

    /** The ten bytes between the name and the data. */
    function Fixed(): (b: seq<Byte>)
      requires Valid()
      ensures |b| == 10
    {
      WordBytes(kind) + WordBytes(class_) + LongBytes(ttl) + WordBytes(|data|)
    }

    function Bytes(): seq<Byte>
      requires Valid()
    {
      name.Bytes() + Fixed() + data
    }

    predicate IsAddress() {
      kind == 1 && |data| == 4
    }
  }

  predicate AllValid(records: seq<Record>) {
    forall r | r in records :: r.Valid()
  }

  function RecordsBytes(records: seq<Record>): seq<Byte>
    requires AllValid(records)
  {
    if records == [] then [] else records[0].Bytes() + RecordsBytes(records[1..])
  }

  /** A response to one question: before and after stand for the header fields that are not looked at. */
  function MessageBytes(before: seq<Byte>, after: seq<Byte>, question: seq<seq<Byte>>, kindAndClass: seq<Byte>,
                        records: seq<Record>): seq<Byte>
    requires |before| == 6 && |after| == 4 && |kindAndClass| == 4
    requires AreLabels(question) && AllValid(records) && |records| < TWO16
  {
    before + WordBytes(|records|) + after + NameBytes(question) + kindAndClass + RecordsBytes(records)
  }

  /** The address in the first record of type 1 with 4 bytes of data. */
  function FirstAddress(records: seq<Record>): Outcome
    requires AllValid(records)
  {
    if records == [] then NotFound
    else if records[0].IsAddress() then Address(LongWord(records[0].data, 0))
    else FirstAddress(records[1..])
  }

  // ---------- Parsing undoes serialising ----------

  lemma {:induction false} NameIsSkipped(d: seq<Byte>, at: nat, labels: seq<seq<Byte>>)
    requires AreLabels(labels) && Stands(d, at, NameBytes(labels))
    ensures QuestionEnd(d, at) == Some(at + |LabelsBytes(labels)|)
    ensures LabelsEnd(d, at) == at + |LabelsBytes(labels)| < |d|
    decreases |labels|
  {
    StandsAt(d, at, NameBytes(labels), 0);
    if labels != [] {
      var p, rest := labels[0], labels[1..];
      assert IsLabel(p) && NameBytes(labels) == LabelBytes(p) + NameBytes(rest);
      StandsSplit(d, at, LabelBytes(p), NameBytes(rest));
      hide Stands;
      NameIsSkipped(d, at + 1 + |p|, rest);
    }
  }

  lemma NameIsRead(d: seq<Byte>, at: nat, name: Name)
    requires name.Valid() && Stands(d, at, name.Bytes())
    ensures at < |d| && NameEnd(d, at) == at + |name.Bytes()|
  {
    StandsAt(d, at, name.Bytes(), 0);
    if name.Labels? {
      NameIsSkipped(d, at, name.labels);
      assert name.labels != [] ==> IsLabel(name.labels[0]);
    }
  }

  lemma WordIsRead(d: seq<Byte>, at: nat, x: UInt16)
    requires Stands(d, at, WordBytes(x))
    ensures at + 1 < |d| && Word(d, at) == x
  {
    StandsAt(d, at, WordBytes(x), 0);
    StandsAt(d, at, WordBytes(x), 1);
  }

  lemma FixedIsRead(d: seq<Byte>, at: nat, r: Record)
    requires r.Valid() && Stands(d, at, r.Fixed())
    ensures at + 10 <= |d| && Word(d, at) == r.kind && Word(d, at + 8) == |r.data|
  {
    hide WordBytes, LongBytes, Stands, Word;
    var kind, class_, ttl, length := WordBytes(r.kind), WordBytes(r.class_), LongBytes(r.ttl), WordBytes(|r.data|);
    StandsSplit(d, at, kind + class_ + ttl, length);
    StandsSplit(d, at, kind + class_, ttl);
    StandsSplit(d, at, kind, class_);
    WordIsRead(d, at, r.kind);
    WordIsRead(d, at + 8, |r.data|);
  }

  lemma LongWordIsRead(d: seq<Byte>, at: nat, data: seq<Byte>)
    requires |data| == 4 && Stands(d, at, data)
    ensures at + 4 <= |d| && LongWord(d, at) == LongWord(data, 0)
  {
    StandsAt(d, at, data, 0);
    StandsAt(d, at, data, 1);
    StandsAt(d, at, data, 2);
    StandsAt(d, at, data, 3);
  }

  /** One turn of the parser's loop. */
  lemma AnswerStep(d: seq<Byte>, at: nat, answers: nat)
    requires at < |d| && answers > 0 && NameEnd(d, at) + 10 <= |d|
    requires var body := NameEnd(d, at); Word(d, body) == 1 && Word(d, body + 8) == 4 ==> body + 14 <= |d|
    ensures var body := NameEnd(d, at);
            AnswersFrom(d, at, answers)
            == if Word(d, body) == 1 && Word(d, body + 8) == 4 then Address(LongWord(d, body + 10))
               else AnswersFrom(d, body + 10 + Word(d, body + 8), answers - 1)
  {
    hide NameEnd, Word, LongWord;
  }

  lemma RecordIsRead(d: seq<Byte>, at: nat, r: Record, answers: nat)
    requires r.Valid() && Stands(d, at, r.Bytes()) && answers > 0
    ensures AnswersFrom(d, at, answers)
            == if r.IsAddress() then Address(LongWord(r.data, 0)) else AnswersFrom(d, at + |r.Bytes()|, answers - 1)
  {
    hide Stands, Name.Bytes, Name.Valid, Record.Fixed, NameEnd, Word, LongWord, AnswersFrom;
    var fixed, name := r.Fixed(), r.name.Bytes();
    StandsSplit(d, at, name + fixed, r.data);
    StandsSplit(d, at, name, fixed);
    NameIsRead(d, at, r.name);
    var body := NameEnd(d, at);
    FixedIsRead(d, body, r);
    if r.IsAddress() {
      LongWordIsRead(d, body + 10, r.data);
    }
    AnswerStep(d, at, answers);
  }

  lemma NoRecords(d: seq<Byte>, at: nat)
    ensures AnswersFrom(d, at, 0) == FirstAddress([]) == NotFound
  {
  }

  lemma FirstRecord(records: seq<Record>)
    requires AllValid(records) && records != []
    ensures records[0].Valid() && AllValid(records[1..])
    ensures RecordsBytes(records) == records[0].Bytes() + RecordsBytes(records[1..])
    ensures FirstAddress(records)
            == if records[0].IsAddress() then Address(LongWord(records[0].data, 0)) else FirstAddress(records[1..])
  {
    assert records[0].Valid();
    hide Record.Bytes, Record.Valid, LongWord;
  }

  lemma RecordsSplit(d: seq<Byte>, at: nat, records: seq<Record>)
    requires AllValid(records) && records != [] && Stands(d, at, RecordsBytes(records))
    ensures records[0].Valid() && AllValid(records[1..])
    ensures Stands(d, at, records[0].Bytes()) && Stands(d, at + |records[0].Bytes()|, RecordsBytes(records[1..]))
    ensures FirstAddress(records)
            == if records[0].IsAddress() then Address(LongWord(records[0].data, 0)) else FirstAddress(records[1..])
  {
    hide *;
    FirstRecord(records);
    StandsSplit(d, at, records[0].Bytes(), RecordsBytes(records[1..]));
  }

  lemma {:induction false} RecordsAreRead(d: seq<Byte>, at: nat, records: seq<Record>)
    requires AllValid(records) && Stands(d, at, RecordsBytes(records))
    ensures AnswersFrom(d, at, |records|) == FirstAddress(records)
    decreases |records|
  {
    hide *;
    if records == [] {
      NoRecords(d, at);
    } else {
      var r := records[0];
      RecordsSplit(d, at, records);
      RecordIsRead(d, at, r, |records|);
      RecordsAreRead(d, at + |r.Bytes()|, records[1..]);
    }
  }

  /** Where the parts of a response stand. */
  lemma ResponseParts(d: seq<Byte>, before: seq<Byte>, after: seq<Byte>, question: seq<seq<Byte>>,
                      kindAndClass: seq<Byte>, records: seq<Record>)
    requires |before| == 6 && |after| == 4 && |kindAndClass| == 4
    requires AreLabels(question) && AllValid(records) && |records| < TWO16
    requires Stands(d, 0, MessageBytes(before, after, question, kindAndClass, records))
    ensures Stands(d, 6, WordBytes(|records|)) && Stands(d, 12, NameBytes(question))
    ensures Stands(d, 12 + |NameBytes(question)| + 4, RecordsBytes(records))
  {
    hide Stands, WordBytes, NameBytes, RecordsBytes, AllValid, AreLabels;
    var count, name, answers := WordBytes(|records|), NameBytes(question), RecordsBytes(records);
    StandsSplit(d, 0, before + count + after + name + kindAndClass, answers);
    StandsSplit(d, 0, before + count + after + name, kindAndClass);
    StandsSplit(d, 0, before + count + after, name);
    StandsSplit(d, 0, before + count, after);
    StandsSplit(d, 0, before, count);
  }

  lemma {:induction false} RecordsTakeRoom(records: seq<Record>)
    requires AllValid(records)
    ensures records != [] ==> |RecordsBytes(records)| >= 10
    ensures records == [] ==> FirstAddress(records) == NotFound
  {
    assert records != [] ==> records[0].Valid() && |RecordsBytes(records)| >= |records[0].Bytes()|;
  }

  /** Any text that starts with a response is read as that response's first address, or as having none. */
  lemma ResponseIsRead(d: seq<Byte>, before: seq<Byte>, after: seq<Byte>, question: seq<seq<Byte>>,
                       kindAndClass: seq<Byte>, records: seq<Record>)
    requires |before| == 6 && |after| == 4 && |kindAndClass| == 4
    requires AreLabels(question) && AllValid(records) && |records| < TWO16
    requires Stands(d, 0, MessageBytes(before, after, question, kindAndClass, records))
    ensures ParseResponse(d) == FirstAddress(records)
  {
    var name, answers := NameBytes(question), RecordsBytes(records);
    assert |name| == |LabelsBytes(question)| + 1;
    hide Stands, AllValid, AreLabels, FirstAddress, AnswersFrom, QuestionEnd, Word;
    hide RecordsBytes, WordBytes, NameBytes, LabelsBytes, MessageBytes;
    ResponseParts(d, before, after, question, kindAndClass, records);
    RecordsTakeRoom(records);
    WordIsRead(d, 6, |records|);
    NameIsSkipped(d, 12, question);
    RecordsAreRead(d, 12 + |name| + 4, records);
    StandsFits(d, 12 + |name| + 4, answers);
  }

  /** The parser returns the first address of any response, and says so when there is none. */
  lemma ParseInvertsSerialisation(before: seq<Byte>, after: seq<Byte>, question: seq<seq<Byte>>,
                                  kindAndClass: seq<Byte>, records: seq<Record>, tail: seq<Byte>)
    requires |before| == 6 && |after| == 4 && |kindAndClass| == 4
    requires AreLabels(question) && AllValid(records) && |records| < TWO16
    ensures ParseResponse(MessageBytes(before, after, question, kindAndClass, records) + tail) == FirstAddress(records)
  {
    ResponseIsRead(MessageBytes(before, after, question, kindAndClass, records) + tail,
                   before, after, question, kindAndClass, records);
  }

  // ---------- The form that is not understood ----------

  /** Section 4.1.4 of RFC 1035 also lets a name be labels that end in a pointer. */
  datatype AnyName = Known(name: Name) | PointerBehind(labels: seq<seq<Byte>>, hi: Byte, lo: Byte)
  {
    predicate Valid() {
      match this
      case Known(name) => name.Valid()
      case PointerBehind(labels, hi, _) => AreLabels(labels) && hi >= 0xC0
    }

    function Bytes(): seq<Byte>
      requires Valid()
    {
      match this
      case Known(name) => name.Bytes()
      case PointerBehind(labels, hi, lo) => LabelsBytes(labels) + [hi, lo]
    }

    /** Labels, at least one, and then a pointer. */
    predicate IsMixed() {
      PointerBehind? && labels != []
    }
  }

  lemma {:induction false} LabelsAreSkipped(d: seq<Byte>, at: nat, labels: seq<seq<Byte>>)
    requires AreLabels(labels) && Stands(d, at, LabelsBytes(labels))
    ensures LabelsEnd(d, at) == LabelsEnd(d, at + |LabelsBytes(labels)|)
    decreases |labels|
  {
    if labels != [] {
      var p, rest := labels[0], labels[1..];
      assert IsLabel(p) && LabelsBytes(labels) == LabelBytes(p) + LabelsBytes(rest);
      StandsSplit(d, at, LabelBytes(p), LabelsBytes(rest));
      StandsAt(d, at, LabelBytes(p), 0);
      LabelsAreSkipped(d, at + 1 + |p|, rest);
    }
  }

  /** Behind labels the walk takes a pointer for a length of at least 192, and jumps that far. */
  lemma MixedNameIsOverrun(d: seq<Byte>, at: nat, labels: seq<seq<Byte>>, hi: Byte, lo: Byte)
    requires AreLabels(labels) && labels != [] && hi >= 0xC0 && Stands(d, at, LabelsBytes(labels) + [hi, lo])
    ensures at < |d| && NameEnd(d, at) >= at + |LabelsBytes(labels)| + 194
    ensures NameEnd(d, at) == LabelsEnd(d, at + |LabelsBytes(labels)| + hi + 1) + 1
  {
    var end := at + |LabelsBytes(labels)|;
    assert LabelsBytes(labels)[0] == |labels[0]| && IsLabel(labels[0]);
    hide Stands, LabelsBytes;
    StandsSplit(d, at, LabelsBytes(labels), [hi, lo]);
    StandsAt(d, end, [hi, lo], 0);
    StandsAt(d, at, LabelsBytes(labels), 0);
    LabelsAreSkipped(d, at, labels);
    assert LabelsEnd(d, end) == LabelsEnd(d, end + hi + 1);
  }

  /** A record's name is passed exactly when it is not such a mixture, wherever it stands and whatever follows. */
  lemma NameIsPassedIff(d: seq<Byte>, at: nat, name: AnyName)
    requires name.Valid() && Stands(d, at, name.Bytes())
    ensures at < |d| && (NameEnd(d, at) == at + |name.Bytes()| <==> !name.IsMixed())
  {
    hide Stands, NameEnd;
    match name {
      case Known(known) =>
        NameIsRead(d, at, known);
      case PointerBehind(labels, hi, lo) =>
        if labels == [] {
          assert LabelsBytes([]) == [];
          assert [] + [hi, lo] == [hi, lo];
          NameIsRead(d, at, Pointer(hi, lo));
        } else {
          MixedNameIsOverrun(d, at, labels, hi, lo);
        }
    }
  }

  /** A response that ends within the jump is refused as malformed. */
  lemma PointerBehindLabelsIsRefused(d: seq<Byte>, at: nat, labels: seq<seq<Byte>>, hi: Byte, lo: Byte, answers: nat)
    requires AreLabels(labels) && labels != [] && hi >= 0xC0 && answers > 0
    requires Stands(d, at, LabelsBytes(labels) + [hi, lo])
    requires |d| < at + |LabelsBytes(labels)| + 204
    ensures AnswersFrom(d, at, answers) == Invalid
  {
    MixedNameIsOverrun(d, at, labels, hi, lo);
    hide NameEnd, Stands;
  }

  /** A response to a question about the root, whose one record, for the name a and then a pointer, has 1.2.3.4. */
  const MIXED_EXAMPLE: seq<Byte> :=
    [0, 0, 0x81, 0x80, 0, 1, 0, 1, 0, 0, 0, 0] + [0, 0, 1, 0, 1] + [1, 97, 0xC0, 12]
    + [0, 1, 0, 1, 0, 0, 0, 0, 0, 4, 1, 2, 3, 4]

  /** The address in it is not found: the response is refused. */
  lemma MixedNameExample()
    ensures ParseResponse(MIXED_EXAMPLE) == Invalid
    ensures LongWord(MIXED_EXAMPLE, 31) == 0x0102_0304
  {
    var d := MIXED_EXAMPLE;
    assert |d| == 35 && d[12] == 0 && d[6] == 0 && d[7] == 1;
    assert d[31] == 1 && d[32] == 2 && d[33] == 3 && d[34] == 4;
    var labels: seq<seq<Byte>> := [[97]];
    assert labels[1..] == [] && LabelsBytes(labels) == [1, 97];
    assert d[17..21] == [1, 97] + [0xC0, 12];
    assert QuestionEnd(d, 12) == Some(12);
    PointerBehindLabelsIsRefused(d, 17, labels, 0xC0, 12, 1);
  }

  // ---------- Labels of any length ----------

  /** A label of more than 63 bytes in the question makes a response malformed, wherever it stands in the name. */
  lemma LongLabelIsRefused(d: seq<Byte>, labels: seq<seq<Byte>>, length: Byte)
    requires AreLabels(labels) && length > 63 && Stands(d, 12, LabelsBytes(labels) + [length])
    requires d[6] != 0 || d[7] != 0
    ensures ParseResponse(d) == Invalid
  {
    QuestionStops(d, 12, labels, length);
    hide LabelsBytes, QuestionEnd, AnswersFrom;
  }

  lemma {:induction false} QuestionStops(d: seq<Byte>, at: nat, labels: seq<seq<Byte>>, length: Byte)
    requires AreLabels(labels) && length > 63 && Stands(d, at, LabelsBytes(labels) + [length])
    ensures QuestionEnd(d, at) == None && at < |d|
    decreases |labels|
  {
    if labels == [] {
      StandsAt(d, at, LabelsBytes(labels) + [length], 0);
    } else {
      var p, rest := labels[0], labels[1..];
      assert IsLabel(p);
      assert LabelsBytes(labels) + [length] == LabelBytes(p) + (LabelsBytes(rest) + [length]);
      StandsSplit(d, at, LabelBytes(p), LabelsBytes(rest) + [length]);
      StandsAt(d, at, LabelBytes(p), 0);
      QuestionStops(d, at + |p| + 1, rest, length);
    }
  }

  /** In the name of a record a label of any length is passed, unless its length byte is taken for a pointer. */
  lemma AnyLabelIsPassed(d: seq<Byte>, at: nat, p: seq<Byte>)
    requires 1 <= |p| < 0xC0 && Stands(d, at, [|p|] + p + [0])
    ensures at < |d| && NameEnd(d, at) == at + |p| + 2
  {
    var name := [|p|] + p + [0];
    StandsAt(d, at, name, 0);
    StandsAt(d, at, name, |p| + 1);
    assert LabelsEnd(d, at + |p| + 1) == at + |p| + 1;
  }

  // ---------- A whole response ----------

  /** A response to a question about the name a: an alias, whose data is skipped, and the address 93.184.216.34. */
  const RESPONSE_EXAMPLE: seq<Byte> :=
    [0xAB, 0xCD, 0x81, 0x80, 0, 1, 0, 2, 0, 0, 0, 0] + [1, 97, 0, 0, 1, 0, 1]
    + [0xC0, 12, 0, 5, 0, 1, 0, 0, 0, 60, 0, 2, 0xC0, 12]
    + [0xC0, 12, 0, 1, 0, 1, 0, 0, 0, 60, 0, 4, 93, 184, 216, 34]

  lemma ResponseExample()
    ensures ParseResponse(RESPONSE_EXAMPLE) == Address(0x5DB8_D822)
  {
    var d := RESPONSE_EXAMPLE;
    assert |d| == 49 && d[6] == 0 && d[7] == 2 && d[12] == 1 && d[14] == 0;
    assert QuestionEnd(d, 14) == Some(14) && QuestionEnd(d, 12) == Some(14);
    assert d[19] == 0xC0 && d[21] == 0 && d[22] == 5 && d[29] == 0 && d[30] == 2;
    assert d[33] == 0xC0 && d[35] == 0 && d[36] == 1 && d[43] == 0 && d[44] == 4;
    assert d[45] == 93 && d[46] == 184 && d[47] == 216 && d[48] == 34;
    hide RESPONSE_EXAMPLE, QuestionEnd;
    AnswerTurn(d, 33, 1);
    AnswerTurn(d, 19, 2);
    hide AnswersFrom;
  }

  // ---------- Responses that are cut off ----------

  /** What the records read as when the response ends at the offset end. */
  function CutRecords(records: seq<Record>, at: nat, end: nat): Outcome
    requires AllValid(records)
  {
    if records == [] || at >= end then NotFound
    else
      var r := records[0];
      assert r.Valid();
      var body := at + |r.name.Bytes()|;
      if body + 10 > end then Invalid
      else if r.IsAddress() then if body + 14 > end then Overrun else Address(LongWord(r.data, 0))
      else CutRecords(records[1..], at + |r.Bytes()|, end)
  }

  /** Where the data of the first address record stands. */
  function AddressStart(records: seq<Record>, at: nat): Option<nat>
    requires AllValid(records)
  {
    if records == [] then None
    else
      assert records[0].Valid();
      if records[0].IsAddress() then Some(at + |records[0].name.Bytes()| + 10)
      else AddressStart(records[1..], at + |records[0].Bytes()|)
  }

  lemma {:induction false} AddressIsBehind(records: seq<Record>, at: nat)
    requires AllValid(records)
    ensures var start := AddressStart(records, at); start.Some? ==> start.value >= at + 10
    decreases |records|
  {
    if records != [] {
      assert records[0].Valid();
      AddressIsBehind(records[1..], at + |records[0].Bytes()|);
    }
  }

  /** Cut records overrun exactly when the first address is reached but not complete. */
  lemma {:induction false} CutRecordsOverrunIff(records: seq<Record>, at: nat, end: nat)
    requires AllValid(records)
    ensures CutRecords(records, at, end) == Overrun
            <==> AddressStart(records, at).Some?
                 && AddressStart(records, at).value <= end < AddressStart(records, at).value + 4
    decreases |records|
  {
    if records != [] {
      var r := records[0];
      assert r.Valid();
      assert |r.Bytes()| == |r.name.Bytes()| + 10 + |r.data|;
      AddressIsBehind(records[1..], at + |r.Bytes()|);
      CutRecordsOverrunIff(records[1..], at + |r.Bytes()|, end);
    }
  }

  /** The first step of both walks over a name that stands in a message. */
  lemma FirstLabel(m: seq<Byte>, at: nat, labels: seq<seq<Byte>>)
    requires AreLabels(labels) && Stands(m, at, NameBytes(labels))
    ensures at < |m|
    ensures if labels == [] then m[at] == 0 && LabelsBytes(labels) == []
            else
              1 <= |labels[0]| <= 63 && m[at] == |labels[0]| && AreLabels(labels[1..])
              && Stands(m, at + 1 + |labels[0]|, NameBytes(labels[1..]))
              && |LabelsBytes(labels)| == 1 + |labels[0]| + |LabelsBytes(labels[1..])|
  {
    StandsAt(m, at, NameBytes(labels), 0);
    if labels != [] {
      var p, rest := labels[0], labels[1..];
      assert IsLabel(p) && NameBytes(labels) == LabelBytes(p) + NameBytes(rest);
      hide Stands;
      StandsSplit(m, at, LabelBytes(p), NameBytes(rest));
    }
  }

  /** A walk over labels that are cut off runs past the end. */
  lemma {:induction false} CutLabels(m: seq<Byte>, end: nat, at: nat, labels: seq<seq<Byte>>)
    requires AreLabels(labels) && Stands(m, at, NameBytes(labels)) && end <= |m|
    ensures var d, stop := m[..end], at + |LabelsBytes(labels)|;
            QuestionEnd(d, at) == Some(LabelsEnd(d, at))
            && if stop < end then LabelsEnd(d, at) == stop else LabelsEnd(d, at) >= end
    decreases |labels|
  {
    hide Stands, LabelsBytes, NameBytes, AreLabels;
    FirstLabel(m, at, labels);
    if at < end {
      assert m[..end][at] == m[at];
      if labels != [] {
        CutLabels(m, end, at + 1 + |labels[0]|, labels[1..]);
      }
    }
  }

  lemma CutName(m: seq<Byte>, end: nat, at: nat, name: Name)
    requires name.Valid() && Stands(m, at, name.Bytes()) && at < end <= |m|
    ensures var body, cut := at + |name.Bytes()|, NameEnd(m[..end], at);
            cut == body || (cut > end && body > end)
  {
    StandsAt(m, at, name.Bytes(), 0);
    if name.Labels? {
      CutLabels(m, end, at, name.labels);
      assert name.labels != [] ==> IsLabel(name.labels[0]);
    }
  }

  lemma CutWord(m: seq<Byte>, end: nat, at: nat)
    requires at + 2 <= end <= |m|
    ensures Word(m[..end], at) == Word(m, at)
  {
  }

  /** One turn of the parser's loop on a record that may be cut off. */
  lemma CutRecordIsRead(m: seq<Byte>, end: nat, at: nat, r: Record, answers: nat)
    requires r.Valid() && Stands(m, at, r.Bytes()) && answers > 0 && at < end <= |m|
    ensures var body := at + |r.name.Bytes()|;
            AnswersFrom(m[..end], at, answers)
            == if body + 10 > end then Invalid
               else if r.IsAddress() then if body + 14 > end then Overrun else Address(LongWord(r.data, 0))
               else AnswersFrom(m[..end], at + |r.Bytes()|, answers - 1)
  {
    hide Stands, Name.Bytes, Name.Valid, Record.Fixed, NameEnd, Word, LongWord, AnswersFrom;
    var fixed, name, d := r.Fixed(), r.name.Bytes(), m[..end];
    StandsSplit(m, at, name + fixed, r.data);
    StandsSplit(m, at, name, fixed);
    CutName(m, end, at, r.name);
    var body := at + |name|;
    FixedIsRead(m, body, r);
    AnswerTurn(d, at, answers);
    if body + 10 <= end {
      CutWord(m, end, body);
      CutWord(m, end, body + 8);
      if r.IsAddress() && body + 14 <= end {
        LongWordIsRead(m, body + 10, r.data);
        CutWord(m, end, body + 10);
        CutWord(m, end, body + 12);
        LongWordIs(m, body + 10);
        LongWordIs(d, body + 10);
      }
    }
  }

  lemma LongWordIs(d: seq<Byte>, at: nat)
    requires at + 3 < |d|
    ensures LongWord(d, at) == Word(d, at) * 0x1_0000 + Word(d, at + 2)
  {
  }

  lemma AnswerTurn(d: seq<Byte>, at: nat, answers: nat)
    requires at < |d| && answers > 0
    ensures var body := NameEnd(d, at);
            AnswersFrom(d, at, answers)
            == if body + 10 > |d| then Invalid
               else if Word(d, body) == 1 && Word(d, body + 8) == 4 then
                 if body + 14 > |d| then Overrun else Address(LongWord(d, body + 10))
               else AnswersFrom(d, body + 10 + Word(d, body + 8), answers - 1)
  {
    hide NameEnd, Word, LongWord;
  }

  lemma {:induction false} CutRecordsAreRead(m: seq<Byte>, end: nat, at: nat, records: seq<Record>)
    requires AllValid(records) && Stands(m, at, RecordsBytes(records)) && end <= |m|
    ensures AnswersFrom(m[..end], at, |records|) == CutRecords(records, at, end)
    decreases |records|
  {
    hide *;
    NoMoreRecords(m[..end], at, |records|, records, end);
    if records != [] && at < end {
      var r := records[0];
      RecordsSplit(m, at, records);
      CutRecordIsRead(m, end, at, r, |records|);
      CutRecordsAreRead(m, end, at + |r.Bytes()|, records[1..]);
      CutStep(records, at, end);
    }
  }

  lemma NoMoreRecords(d: seq<Byte>, at: nat, answers: nat, records: seq<Record>, end: nat)
    requires AllValid(records) && |d| == end && answers == |records|
    ensures records == [] || at >= end ==> AnswersFrom(d, at, answers) == CutRecords(records, at, end) == NotFound
  {
  }

  lemma CutStep(records: seq<Record>, at: nat, end: nat)
    requires AllValid(records) && records != [] && at < end && records[0].Valid()
    ensures AllValid(records[1..])
    ensures var r := records[0]; var body := at + |r.name.Bytes()|;
            CutRecords(records, at, end)
            == if body + 10 > end then Invalid
               else if r.IsAddress() then if body + 14 > end then Overrun else Address(LongWord(r.data, 0))
               else CutRecords(records[1..], at + |r.Bytes()|, end)
  {
    hide Record.Bytes, Record.Valid, Name.Bytes;
  }

  /** What a response that is cut off reads as: nothing in front of the records matters but its room. */
  function CutResponse(question: seq<seq<Byte>>, records: seq<Record>, end: nat): Outcome
    requires AreLabels(question) && AllValid(records)
  {
    var at := HEADER_SIZE + |NameBytes(question)| + 4;
    if end < HEADER_SIZE then Invalid
    else if records == [] then NotFound
    else if end <= at then Invalid
    else CutRecords(records, at, end)
  }

  /** The parser, once it is known where the question's name ends. */
  lemma ParseIs(d: seq<Byte>, end: nat)
    ensures |d| < 12 ==> ParseResponse(d) == Invalid
    ensures |d| >= 12 && QuestionEnd(d, 12) == Some(end) ==>
              ParseResponse(d) == if Word(d, 6) == 0 then NotFound
                                  else if end + 5 >= |d| then Invalid else AnswersFrom(d, end + 5, Word(d, 6))
  {
    hide QuestionEnd, AnswersFrom, Word;
  }

  lemma CutResponseIs(question: seq<seq<Byte>>, records: seq<Record>, end: nat)
    requires AreLabels(question) && AllValid(records)
    ensures |NameBytes(question)| == |LabelsBytes(question)| + 1
    ensures var at := |LabelsBytes(question)| + 17;
            CutResponse(question, records, end)
            == if end < 12 then Invalid
               else if records == [] then NotFound
               else if end <= at then Invalid
               else CutRecords(records, at, end)
  {
    hide LabelsBytes, AllValid, AreLabels, CutRecords;
  }

  lemma StandsWhole(m: seq<Byte>)
    ensures Stands(m, 0, m)
  {
    assert m[0..|m|] == m;
  }

  /** The parser on every prefix of a response. */
  lemma PrefixIsRead(before: seq<Byte>, after: seq<Byte>, question: seq<seq<Byte>>,
                     kindAndClass: seq<Byte>, records: seq<Record>, end: nat)
    requires |before| == 6 && |after| == 4 && |kindAndClass| == 4
    requires AreLabels(question) && AllValid(records) && |records| < TWO16
    requires end <= |MessageBytes(before, after, question, kindAndClass, records)|
    ensures ParseResponse(MessageBytes(before, after, question, kindAndClass, records)[..end])
            == CutResponse(question, records, end)
  {
    hide *;
    var m := MessageBytes(before, after, question, kindAndClass, records);
    CutResponseIs(question, records, end);
    StandsWhole(m);
    ParseIs(m[..end], LabelsEnd(m[..end], 12));
    if end >= 12 {
      ResponseParts(m, before, after, question, kindAndClass, records);
      WordIsRead(m, 6, |records|);
      CutWord(m, end, 6);
      CutLabels(m, end, 12, question);
      CutRecordsAreRead(m, end, |LabelsBytes(question)| + 17, records);
    }
  }

  /**
   * A prefix of a response makes the parser read behind its end exactly when it ends inside the four
   * bytes of the first address, or just in front of them.
   */
  lemma OverrunsIff(before: seq<Byte>, after: seq<Byte>, question: seq<seq<Byte>>,
                    kindAndClass: seq<Byte>, records: seq<Record>, end: nat)
    requires |before| == 6 && |after| == 4 && |kindAndClass| == 4
    requires AreLabels(question) && AllValid(records) && |records| < TWO16
    requires end <= |MessageBytes(before, after, question, kindAndClass, records)|
    ensures var start := AddressStart(records, HEADER_SIZE + |NameBytes(question)| + 4);
            ParseResponse(MessageBytes(before, after, question, kindAndClass, records)[..end]) == Overrun
            <==> start.Some? && start.value <= end < start.value + 4
  {
    var at := HEADER_SIZE + |NameBytes(question)| + 4;
    assert AddressStart([], at) == None;
    hide MessageBytes, NameBytes, ParseResponse, CutRecords, AddressStart;
    PrefixIsRead(before, after, question, kindAndClass, records, end);
    AddressIsBehind(records, at);
    CutRecordsOverrunIff(records, at, end);
  }

  /** A response to a question about the root, whose address is 1.2.3.4, cut in front of its last byte. */
  lemma CutExample(before: seq<Byte>, after: seq<Byte>, kindAndClass: seq<Byte>)
    requires |before| == 6 && |after| == 4 && |kindAndClass| == 4
    ensures var records := [Record(Pointer(0xC0, 12), 1, 1, 0, [1, 2, 3, 4])];
            var m := MessageBytes(before, after, [], kindAndClass, records);
            |m| == 33 && ParseResponse(m[..32]) == Overrun
  {
    var r := Record(Pointer(0xC0, 12), 1, 1, 0, [1, 2, 3, 4]);
    var records := [r];
    assert |NameBytes([])| == 1 && |r.Bytes()| == 16;
    assert records[1..] == [] && |RecordsBytes(records)| == 16;
    assert AddressStart(records, 17) == Some(29);
    OverrunsIff(before, after, [], kindAndClass, records, 32);
    hide ParseResponse, RecordsBytes;
  }
}
