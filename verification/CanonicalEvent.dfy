/** Canonical Event Format V1: the bytes that identify an event, how they are built, and that
    they identify it exactly. */
module CanonicalEvent {
  import opened Options
  import opened CanonicalString
  import opened JsonLiteral
  import opened Decimals
  import opened Json

  /** A webhook event.  `meta` is `None` for a nil map, and `Unsupported` stands for nil events,
      typed nil pointers and unknown implementations. */
  datatype Event =
    | Test(appName: string)
    | Verification(appName: string, code: string)
    | Alert(appName: string, alertId: int, summary: string, details: string, serviceId: string, serviceName: string,
            meta: Option<map<string, string>>)
    | AlertStatus(appName: string, alertId: int, logEntry: string, alertState: string)
    | Unsupported

  predicate ValidMeta(m: map<string, string>)
  {
    forall k :: k in m ==> PrintableAscii(k) && ValidUtf8(m[k])
  }

  predicate Canonicalizable(e: Event)
  {
    match e
    case Test(app) => ValidUtf8(app)
    case Verification(app, code) => ValidUtf8(app) && ValidUtf8(code)
    case Alert(app, _, summary, details, serviceId, serviceName, meta) =>
      && ValidUtf8(app) && ValidUtf8(summary) && ValidUtf8(details) && ValidUtf8(serviceId) && ValidUtf8(serviceName)
      && meta.Some? && ValidMeta(meta.value)
    case AlertStatus(app, _, logEntry, alertState) => ValidUtf8(app) && ValidUtf8(logEntry) && ValidUtf8(alertState)
    case Unsupported => false
  }

  // ---------------------------------------------------------------- sorted keys

  /** Byte order of strings. */
  predicate Less(a: string, b: string)
  {
    b != [] && (a == [] || a[0] < b[0] || (a[0] == b[0] && Less(a[1..], b[1..])))
  }

  lemma {:induction false} LessIsStrict(a: string, b: string)
    ensures !(Less(a, b) && Less(b, a))
    ensures a != b ==> Less(a, b) || Less(b, a)
    ensures a == b ==> !Less(a, b)
  {
    if a != [] && b != [] {
      LessIsStrict(a[1..], b[1..]);
      assert a == [a[0]] + a[1..] && b == [b[0]] + b[1..];
    }
  }

  lemma {:induction false} LessIsTransitive(a: string, b: string, c: string)
    requires Less(a, b) && Less(b, c)
    ensures Less(a, c)
  {
    if a != [] && a[0] == b[0] && b[0] == c[0] {
      LessIsTransitive(a[1..], b[1..], c[1..]);
    }
  }

  predicate Sorted(ks: seq<string>)
  {
    forall i, j :: 0 <= i < j < |ks| ==> Less(ks[i], ks[j])
  }

  /** `ks` lists exactly the keys, in strictly ascending order. */
  ghost predicate Ordered(ks: seq<string>, keys: set<string>)
  {
    Sorted(ks) && forall k :: k in keys <==> k in ks
  }

  function Insert(ks: seq<string>, k: string): seq<string>
  {
    if ks == [] then [k] else if Less(k, ks[0]) then [k] + ks else [ks[0]] + Insert(ks[1..], k)
  }

  lemma {:induction false} InsertKeepsOrder(ks: seq<string>, k: string)
    requires Sorted(ks) && k !in ks
    ensures Sorted(Insert(ks, k))
    ensures forall x :: x in Insert(ks, k) <==> x == k || x in ks
  {
    if ks != [] {
      LessIsStrict(k, ks[0]);
      if Less(k, ks[0]) {
        forall j | 0 <= j < |ks| ensures Less(k, ks[j]) {
          if j > 0 { LessIsTransitive(k, ks[0], ks[j]); }
        }
      } else {
        InsertKeepsOrder(ks[1..], k);
        var r := Insert(ks[1..], k);
        forall j | 0 <= j < |r| ensures Less(ks[0], r[j]) {
          assert r[j] in r;
        }
      }
    }
  }

  /** There is only one way to list a set of keys in order. */
  lemma {:induction false} OrderIsUnique(a: seq<string>, b: seq<string>, keys: set<string>)
    requires Ordered(a, keys) && Ordered(b, keys)
    ensures a == b
  {
    if b != [] {
      assert b[0] in b;
    }
    if a != [] {
      assert a[0] in b && (b != [] ==> b[0] in a);
      var i :| 0 <= i < |b| && b[i] == a[0];
      var j :| 0 <= j < |a| && a[j] == b[0];
      LessIsStrict(a[0], b[0]);
      assert a[0] == b[0];
      var rest := keys - {a[0]};
      TailIsOrdered(a, keys);
      TailIsOrdered(b, keys);
      OrderIsUnique(a[1..], b[1..], rest);
    }
  }

  lemma TailIsOrdered(a: seq<string>, keys: set<string>)
    requires Ordered(a, keys) && a != []
    ensures Ordered(a[1..], keys - {a[0]})
  {
    forall k ensures k in keys - {a[0]} <==> k in a[1..] {
      LessIsStrict(a[0], a[0]);
      if k in a[1..] {
        var i :| 0 < i < |a| && a[i] == k;
      }
    }
  }

  ghost function SortedKeys(keys: set<string>): (ks: seq<string>)
    ensures Ordered(ks, keys)
  {
    if keys == {} then []
    else
      var k :| k in keys;
      var rest := SortedKeys(keys - {k});
      InsertKeepsOrder(rest, k);
      Insert(rest, k)
  }

  /** The first byte in which two strings differ decides, and a string comes after its own beginnings. */
  ghost predicate FirstDifference(a: string, b: string, k: nat)
  {
    && k <= |a| && k <= |b| && a[..k] == b[..k]
    && if k == |a| then k < |b| else k < |b| && a[k] < b[k]
  }

  lemma NoEarlierDifference(a: string, b: string, k: nat)
    requires FirstDifference(a, b, k)
    ensures k > 0 ==> a != [] && b != [] && a[0] == b[0]
  {
    if k > 0 {
      assert a[0] == a[..k][0] && b[0] == b[..k][0];
    }
  }

  lemma {:induction false} LessByFirstDifference(a: string, b: string)
    ensures Less(a, b) <==> exists k: nat :: FirstDifference(a, b, k)
  {
    if a == [] || b == [] || a[0] != b[0] {
      if Less(a, b) {
        assert FirstDifference(a, b, 0);
      }
      forall k: nat | FirstDifference(a, b, k) ensures k == 0 {
        NoEarlierDifference(a, b, k);
      }
    } else {
      LessByFirstDifference(a[1..], b[1..]);
      forall k: nat | FirstDifference(a[1..], b[1..], k) ensures FirstDifference(a, b, k + 1) {
        assert a[..k + 1] == [a[0]] + a[1..][..k] && b[..k + 1] == [b[0]] + b[1..][..k];
      }
      forall k: nat | FirstDifference(a, b, k) ensures k > 0 && FirstDifference(a[1..], b[1..], k - 1) {
        assert a[1..][..k - 1] == a[..k][1..] && b[1..][..k - 1] == b[..k][1..];
      }
    }
  }

  // ---------------------------------------------------------------- the members of an event

  function MetaMembers(m: map<string, string>, ks: seq<string>): Members
    requires forall k :: k in ks ==> k in m
  {
    if ks == [] then End else Then(ks[0], Text(m[ks[0]]), MetaMembers(m, ks[1..]))
  }

  /** Names and values in the order in which canonical format 1 documents them. */
  ghost function Fields(e: Event): Members
    requires Canonicalizable(e)
  {
    match e
    case Test(appName) => Headed(appName, KindOf(e), End)
    case Verification(appName, code) => Headed(appName, KindOf(e), Then("Code", Text(code), End))
    case Alert(appName, alertId, summary, details, serviceId, serviceName, meta) =>
      Headed(appName, KindOf(e), Then("AlertID", Number(alertId),
             AlertFields(summary, details, serviceId, serviceName, meta.value)))
    case AlertStatus(appName, alertId, logEntry, alertState) =>
      Headed(appName, KindOf(e), Then("AlertID", Number(alertId), StatusFields(logEntry, alertState)))
  }

  function KindOf(e: Event): string
    requires !e.Unsupported?
  {
    match e
    case Test(_) => "Test"
    case Verification(_, _) => "Verification"
    case Alert(_, _, _, _, _, _, _) => "Alert"
    case AlertStatus(_, _, _, _) => "AlertStatus"
  }

  lemma KindIsPlain(e: Event)
    requires !e.Unsupported?
    ensures PlainName(KindOf(e)) && PrintableAscii(KindOf(e))
  {
  }

  predicate SameKind(e: Event, f: Event)
  {
    (e.Test? <==> f.Test?) && (e.Verification? <==> f.Verification?) && (e.Alert? <==> f.Alert?)
  }

  lemma KindsDiffer(e: Event, f: Event)
    requires !e.Unsupported? && !f.Unsupported? && KindOf(e) == KindOf(f)
    ensures SameKind(e, f)
  {
    assert |KindOf(e)| == |KindOf(f)| && KindOf(e)[0] == KindOf(f)[0];
  }

  function Headed(appName: string, kind: string, rest: Members): Members
  {
    Then("AppName", Text(appName), Then("Type", Text(kind), rest))
  }

  ghost function AlertFields(
      summary: string, details: string, serviceId: string, serviceName: string, meta: map<string, string>): Members
  {
    Then("Summary", Text(summary), Then("Details", Text(details), ServiceFields(serviceId, serviceName, meta)))
  }

  ghost function ServiceFields(serviceId: string, serviceName: string, meta: map<string, string>): Members
  {
    Then("ServiceID", Text(serviceId), Then("ServiceName", Text(serviceName), Then("Meta", MetaObject(meta), End)))
  }

  function StatusFields(logEntry: string, alertState: string): Members
  {
    Then("LogEntry", Text(logEntry), Then("AlertState", Text(alertState), End))
  }

  ghost function MetaObject(m: map<string, string>): Value
  {
    Object(MetaMembers(m, SortedKeys(m.Keys)))
  }

  /** A name whose literal is itself between quotes. */
  predicate PlainName(s: string)
  {
    forall i :: 0 <= i < |s| ==> Plain(s[i]) && s[i] as int < 0x80
  }

  lemma {:induction false} PlainNameIsItself(s: string)
    requires PlainName(s)
    ensures ValidUtf8(s) && Escape(s) == s
  {
    if s != [] {
      PlainNameIsItself(s[1..]);
      assert s == [s[0]] + s[1..];
    }
  }

  lemma {:induction false} MetaIsWritable(m: map<string, string>, ks: seq<string>)
    requires ValidMeta(m) && forall k :: k in ks ==> k in m
    ensures AllWritable(MetaMembers(m, ks))
  {
    if ks != [] {
      MetaIsWritable(m, ks[1..]);
    }
  }

  lemma HeadedIsWritable(appName: string, kind: string, rest: Members)
    requires ValidUtf8(appName) && PrintableAscii(kind) && AllWritable(rest)
    ensures AllWritable(Headed(appName, kind, rest))
  {
    WithMember("Type", Text(kind), rest);
    WithMember("AppName", Text(appName), Then("Type", Text(kind), rest));
  }

  lemma AlertFieldsAreWritable(
      summary: string, details: string, serviceId: string, serviceName: string, meta: map<string, string>)
    requires ValidUtf8(summary) && ValidUtf8(details) && ValidUtf8(serviceId) && ValidUtf8(serviceName)
    requires ValidMeta(meta)
    ensures AllWritable(AlertFields(summary, details, serviceId, serviceName, meta))
  {
    MetaIsWritable(meta, SortedKeys(meta.Keys));
    var last := Then("Meta", MetaObject(meta), End);
    var name := Then("ServiceName", Text(serviceName), last);
    var service := Then("ServiceID", Text(serviceId), name);
    WithMember("Meta", MetaObject(meta), End);
    WithMember("ServiceName", Text(serviceName), last);
    WithMember("ServiceID", Text(serviceId), name);
    WithMember("Details", Text(details), service);
    WithMember("Summary", Text(summary), Then("Details", Text(details), service));
  }

  lemma StatusFieldsAreWritable(logEntry: string, alertState: string)
    requires ValidUtf8(logEntry) && ValidUtf8(alertState)
    ensures AllWritable(StatusFields(logEntry, alertState))
  {
    WithMember("AlertState", Text(alertState), End);
    WithMember("LogEntry", Text(logEntry), Then("AlertState", Text(alertState), End));
  }

  lemma FieldsAreWritable(e: Event)
    requires Canonicalizable(e)
    ensures AllWritable(Fields(e))
  {
    KindIsPlain(e);
    match e
    case Test(appName) => HeadedIsWritable(appName, KindOf(e), End);
    case Verification(appName, code) =>
      WithMember("Code", Text(code), End);
      HeadedIsWritable(appName, KindOf(e), Then("Code", Text(code), End));
    case Alert(appName, alertId, summary, details, serviceId, serviceName, meta) =>
      var rest := AlertFields(summary, details, serviceId, serviceName, meta.value);
      AlertFieldsAreWritable(summary, details, serviceId, serviceName, meta.value);
      WithMember("AlertID", Number(alertId), rest);
      HeadedIsWritable(appName, KindOf(e), Then("AlertID", Number(alertId), rest));
    case AlertStatus(appName, alertId, logEntry, alertState) =>
      var rest := StatusFields(logEntry, alertState);
      StatusFieldsAreWritable(logEntry, alertState);
      WithMember("AlertID", Number(alertId), rest);
      HeadedIsWritable(appName, KindOf(e), Then("AlertID", Number(alertId), rest));
  }

  /** The canonical bytes of an event: the compact text of the object with its fields. */
  ghost function Bytes(e: Event): string
    requires Canonicalizable(e)
  {
    FieldsAreWritable(e);
    Write(Object(Fields(e)), "")
  }

  /** The canonical bytes are read as the object with exactly the event's fields, in their order, and nothing
      follows it. */
  lemma BytesReadBack(e: Event)
    requires Canonicalizable(e)
    ensures Read(Bytes(e)) == Some(Parsed(Object(Fields(e)), ""))
  {
    FieldsAreWritable(e);
    ReadsBack(Object(Fields(e)), "");
  }

  /** Of two members that follow each other, the name of the first is smaller in the first byte in which the two
      names differ. */
  ghost predicate Ascending(ms: Members)
  {
    ms.Then? && ms.rest.Then? ==> (exists k: nat :: FirstDifference(ms.name, ms.rest.name, k)) && Ascending(ms.rest)
  }

  function MapOf(ms: Members): map<string, Value>
  {
    if ms.End? then map[] else MapOf(ms.rest)[ms.name := ms.value]
  }

  /** An object with the entries of `m` as its members, sorted by their names. */
  ghost predicate SpellsMap(v: Value, m: map<string, string>)
  {
    v.Object? && Ascending(v.members) && MapOf(v.members) == map k | k in m :: Text(m[k])
  }

  lemma {:induction false} MembersSpell(m: map<string, string>, ks: seq<string>)
    requires (forall k :: k in ks ==> k in m) && forall i, j :: 0 <= i < j < |ks| ==> Less(ks[i], ks[j])
    ensures Ascending(MetaMembers(m, ks)) && MapOf(MetaMembers(m, ks)) == map k | k in ks :: Text(m[k])
  {
    if ks != [] {
      MembersSpell(m, ks[1..]);
      if |ks| > 1 {
        LessByFirstDifference(ks[0], ks[1]);
      }
      assert ks == [ks[0]] + ks[1..];
    }
  }

  lemma MetaSpells(m: map<string, string>)
    ensures SpellsMap(MetaObject(m), m)
  {
    MembersSpell(m, SortedKeys(m.Keys));
  }

  /** What canonical format 1 documents for each kind of event: names, values and their order. */
  ghost predicate Documents(v: Value, e: Event)
  {
    match e
    case Test(appName) => v == Object(Then("AppName", Text(appName), Then("Type", Text("Test"), End)))
    case Verification(appName, code) =>
      v == Object(Then("AppName", Text(appName), Then("Type", Text("Verification"), Then("Code", Text(code), End))))
    case Alert(appName, alertId, summary, details, serviceId, serviceName, meta) =>
      && meta.Some?
      && exists nested ::
           && SpellsMap(nested, meta.value)
           && v == Object(Then("AppName", Text(appName), Then("Type", Text("Alert"), Then("AlertID", Number(alertId),
                          Then("Summary", Text(summary), Then("Details", Text(details),
                          Then("ServiceID", Text(serviceId), Then("ServiceName", Text(serviceName),
                          Then("Meta", nested, End)))))))))
    case AlertStatus(appName, alertId, logEntry, alertState) =>
      v == Object(Then("AppName", Text(appName), Then("Type", Text("AlertStatus"), Then("AlertID", Number(alertId),
                  Then("LogEntry", Text(logEntry), Then("AlertState", Text(alertState), End))))))
    case Unsupported => false
  }

  lemma FieldsAreDocumented(e: Event)
    requires Canonicalizable(e)
    ensures Documents(Object(Fields(e)), e)
  {
    if e.Alert? {
      MetaSpells(e.meta.value);
    }
  }

  /** A reader finds in the canonical bytes the object that is documented for the event, and nothing after it. */
  lemma BytesAreDocumented(e: Event)
    requires Canonicalizable(e)
    ensures Read(Bytes(e)).Some? && Read(Bytes(e)).value.rest == "" && Documents(Read(Bytes(e)).value.value, e)
  {
    BytesReadBack(e);
    FieldsAreDocumented(e);
  }

  // ---------------------------------------------------------------- the bytes identify the event

  lemma {:induction false} MetaMembersDetermine(
      m: map<string, string>, ks: seq<string>, m': map<string, string>, ks': seq<string>)
    requires (forall k :: k in ks ==> k in m) && (forall k :: k in ks' ==> k in m')
    requires MetaMembers(m, ks) == MetaMembers(m', ks')
    ensures ks == ks' && forall k :: k in ks ==> m[k] == m'[k]
  {
    if ks != [] {
      MetaMembersDetermine(m, ks[1..], m', ks'[1..]);
      assert ks == [ks[0]] + ks[1..] && ks' == [ks'[0]] + ks'[1..];
    }
  }

  lemma MetaDetermines(m: map<string, string>, m': map<string, string>)
    requires MetaObject(m) == MetaObject(m')
    ensures m == m'
  {
    var ks, ks' := SortedKeys(m.Keys), SortedKeys(m'.Keys);
    MetaMembersDetermine(m, ks, m', ks');
    assert forall k :: k in m <==> k in ks;
    assert forall k :: k in m' <==> k in ks';
  }

  lemma FieldsDetermine(e: Event, f: Event)
    requires Canonicalizable(e) && Canonicalizable(f) && Fields(e) == Fields(f)
    ensures e == f
  {
    KindsDiffer(e, f);
    if e.Alert? {
      MetaDetermines(e.meta.value, f.meta.value);
    }
  }

  /** Two events have the same canonical bytes exactly if they are the same event. */
  lemma BytesIdentifyTheEvent(e: Event, f: Event)
    requires Canonicalizable(e) && Canonicalizable(f)
    ensures Bytes(e) == Bytes(f) <==> e == f
  {
    BytesReadBack(e);
    BytesReadBack(f);
    if Bytes(e) == Bytes(f) {
      FieldsDetermine(e, f);
    }
  }

  // ---------------------------------------------------------------- building the bytes

  /** What `data` becomes once the members `ms` and the closing brace are appended to it. */
  function Completed(data: string, ms: Members): Option<string>
  {
    if AllWritable(ms) then Some(data + Following(ms, "}")) else None
  }

  /** The text of an object that can be written. */
  function TextOf(ms: Members): Option<string>
  {
    if AllWritable(ms) then Some(Write(Object(ms), "")) else None
  }

  lemma BytesAreTheText(e: Event)
    requires Canonicalizable(e)
    ensures TextOf(Fields(e)) == Some(Bytes(e))
  {
    FieldsAreWritable(e);
  }

  /** A comma, a name in quotes and a colon. */
  function Key(name: string): string
  {
    ",\"" + (name + "\":")
  }

  lemma PlainQuote(name: string, x: string)
    requires PlainName(name)
    ensures ValidUtf8(name) && Quote(name) + x == "\"" + (name + ("\"" + x))
  {
    PlainNameIsItself(name);
    Assoc("\"", name, "\"");
    Assoc("\"", name + "\"", x);
    Assoc(name, "\"", x);
  }

  lemma KeyText(name: string, x: string)
    requires PlainName(name)
    ensures ValidUtf8(name) && "," + (Quote(name) + (":" + x)) == Key(name) + x
  {
    PlainQuote(name, ":" + x);
    Spliced(name, x);
  }

  lemma Spliced(name: string, x: string)
    ensures "," + ("\"" + (name + ("\"" + (":" + x)))) == (",\"" + (name + "\":")) + x
  {
  }

  lemma AwaitsName(data: string, name: string, value: Value, rest: Members, goal: string)
    requires PlainName(name) && Completed(data, Then(name, value, rest)) == Some(goal)
    ensures (data + Key(name)) + Write(value, Following(rest, "}")) == goal
  {
    FollowingMember(name, value, rest, "}");
    KeyText(name, Write(value, Following(rest, "}")));
    Assoc(data, Key(name), Write(value, Following(rest, "}")));
  }

  /** An opening brace, a name in quotes and a colon. */
  function FirstKey(name: string): string
  {
    "{\"" + (name + "\":")
  }

  lemma FirstKeyText(name: string, x: string)
    requires PlainName(name)
    ensures ValidUtf8(name) && "{" + (Quote(name) + (":" + x)) == FirstKey(name) + x
  {
    PlainQuote(name, ":" + x);
    FirstSpliced(name, x);
  }

  lemma FirstSpliced(name: string, x: string)
    ensures "{" + ("\"" + (name + ("\"" + (":" + x)))) == ("{\"" + (name + "\":")) + x
  {
  }

  lemma OpensWith(name: string, text: string, rest: Members)
    requires PlainName(name) && ValidUtf8(text) && AllWritable(Then(name, Text(text), rest))
    ensures Completed(FirstKey(name) + Quote(text), rest) == TextOf(Then(name, Text(text), rest))
  {
    assert "}" + "" == "}";
    FirstMember(name, Text(text), rest, "");
    FirstKeyText(name, Quote(text) + Following(rest, "}"));
    Assoc(FirstKey(name), Quote(text), Following(rest, "}"));
  }

  /** Writes the start of an event and its kind.  `good` says that the whole event is acceptable, in which case
      `goal` is its text and `rest` the members that are to follow. */
  method AppendHead(appName: string, kind: string, ghost good: bool, ghost rest: Members, ghost goal: string)
    returns (ok: bool, data: string)
    requires PlainName(kind)
    requires good ==>
      ValidUtf8(appName) && TextOf(Headed(appName, kind, rest)) == Some(goal)
    ensures ok <==> ValidUtf8(appName)
    ensures good ==> Completed(data, rest) == Some(goal)
  {
    ok, data := AppendCanonicalString(FirstKey("AppName"), appName);
    if good {
      OpensWith("AppName", appName, Then("Type", Text(kind), rest));
    }
    if ok {
      data := AppendWord(data, "Type", kind, good, rest, goal);
    }
  }

  method AppendText(
      data: string, name: string, value: string, ghost good: bool, ghost rest: Members, ghost goal: string)
    returns (ok: bool, out: string)
    requires PlainName(name)
    requires good ==> ValidUtf8(value) && Completed(data, Then(name, Text(value), rest)) == Some(goal)
    ensures ok <==> ValidUtf8(value)
    ensures good ==> Completed(out, rest) == Some(goal)
  {
    ok, out := AppendCanonicalString(data + Key(name), value);
    if good {
      AwaitsName(data, name, Text(value), rest, goal);
      Assoc(data + Key(name), Quote(value), Following(rest, "}"));
    }
  }

  /** The last member and the closing brace. */
  method AppendLast(data: string, name: string, value: string, ghost good: bool, ghost goal: string)
    returns (ok: bool, out: string)
    requires PlainName(name)
    requires good ==> ValidUtf8(value) && Completed(data, Then(name, Text(value), End)) == Some(goal)
    ensures ok <==> ValidUtf8(value)
    ensures good ==> out == goal
  {
    ok, out := AppendText(data, name, value, good, End, goal);
    if ok {
      out := out + "}";
    }
  }

  method AppendWord(data: string, name: string, word: string, ghost good: bool, ghost rest: Members, ghost goal: string)
    returns (out: string)
    requires PlainName(name) && PlainName(word)
    requires good ==> Completed(data, Then(name, Text(word), rest)) == Some(goal)
    ensures good ==> Completed(out, rest) == Some(goal)
  {
    out := data + Key(name);
    out := out + ("\"" + (word + "\""));
    if good {
      AwaitsName(data, name, Text(word), rest, goal);
      PlainNameIsItself(word);
      Assoc("\"", word, "\"");
      Assoc(data + Key(name), Quote(word), Following(rest, "}"));
    }
  }

  method AppendNumber(data: string, name: string, n: int, ghost good: bool, ghost rest: Members, ghost goal: string)
    returns (out: string)
    requires PlainName(name)
    requires good ==> Completed(data, Then(name, Number(n), rest)) == Some(goal)
    ensures good ==> Completed(out, rest) == Some(goal)
  {
    out := data + Key(name);
    out := out + Decimal(n);
    if good {
      AwaitsName(data, name, Number(n), rest, goal);
      Assoc(data + Key(name), Decimal(n), Following(rest, "}"));
    }
  }

  /** `sort.Strings`, by insertion. */
  method SortStrings(keys: seq<string>) returns (sorted: seq<string>)
    requires forall i, j :: 0 <= i < j < |keys| ==> keys[i] != keys[j]
    ensures Sorted(sorted) && forall k :: k in sorted <==> k in keys
  {
    sorted := [];
    for n := 0 to |keys|
      invariant Sorted(sorted) && forall k :: k in sorted <==> k in keys[..n]
    {
      InsertKeepsOrder(sorted, keys[n]);
      sorted := Insert(sorted, keys[n]);
    }
  }

  /** The keys of a Meta map in ascending byte order, unless some key or value is not acceptable. */
  method SortedMetaKeys(m: map<string, string>) returns (ok: bool, keys: seq<string>)
    ensures ok <==> ValidMeta(m)
    ensures ok ==> keys == SortedKeys(m.Keys)
  {
    keys := [];
    var todo := m.Keys;
    while todo != {}
      invariant todo <= m.Keys
      invariant forall k :: k in m && k !in todo <==> k in keys
      invariant forall k :: k in m && k !in todo ==> PrintableAscii(k) && ValidUtf8(m[k])
      invariant forall i, j :: 0 <= i < j < |keys| ==> keys[i] != keys[j]
      decreases todo
    {
      var key :| key in todo;
      if !PrintableAscii(key) || !ValidUtf8(m[key]) {
        return false, [];
      }
      keys := keys + [key];
      todo := todo - {key};
    }
    ok := true;
    keys := SortStrings(keys);
    OrderIsUnique(keys, SortedKeys(m.Keys), m.Keys);
  }

  /** What is still to be written of the Meta object when the first `n` members are. */
  function Remaining(m: map<string, string>, ks: seq<string>, n: nat, tail: string): string
    requires n <= |ks| && (forall k :: k in ks ==> k in m) && ValidMeta(m)
  {
    MetaIsWritable(m, ks[n..]);
    if n == 0 then WriteMembers(MetaMembers(m, ks[n..]), tail) else Following(MetaMembers(m, ks[n..]), tail)
  }

  /** `data` with one more member, as it is appended piece by piece. */
  function WithMeta(data: string, first: bool, key: string, value: string): string
    requires ValidUtf8(key) && ValidUtf8(value)
  {
    (((if first then data else data + ",") + Quote(key)) + ":") + Quote(value)
  }

  lemma Rebuild(d: string, k: string, c: string, v: string, r: string)
    ensures d + (k + (c + (v + r))) == (((d + k) + c) + v) + r
  {
  }

  lemma NextMember(m: map<string, string>, ks: seq<string>, n: nat, data: string, tail: string)
    requires n < |ks| && (forall k :: k in ks ==> k in m) && ValidMeta(m)
    ensures ValidUtf8(ks[n]) && ValidUtf8(m[ks[n]])
    ensures data + Remaining(m, ks, n, tail) ==
            WithMeta(data, n == 0, ks[n], m[ks[n]]) + Remaining(m, ks, n + 1, tail)
  {
    AsciiIsUtf8(ks[n]);
    MetaIsWritable(m, ks[n..]);
    assert ks[n..][1..] == ks[n + 1..];
    var d := if n == 0 then data else data + ",";
    var r := Remaining(m, ks, n + 1, tail);
    var x := Quote(ks[n]) + (":" + (Quote(m[ks[n]]) + r));
    assert WriteMembers(MetaMembers(m, ks[n..]), tail) == x;
    Assoc(data, ",", x);
    Rebuild(d, Quote(ks[n]), ":", Quote(m[ks[n]]), r);
  }

  method AppendMember(data: string, first: bool, key: string, value: string) returns (out: string)
    requires ValidUtf8(key) && ValidUtf8(value)
    ensures out == WithMeta(data, first, key, value)
  {
    out := data;
    if !first {
      out := out + ",";
    }
    var ok;
    ok, out := AppendCanonicalString(out, key);
    out := out + ":";
    ok, out := AppendCanonicalString(out, value);
  }

  /** The loop over the sorted keys writes the members of the Meta object. */
  method AppendMembers(data: string, m: map<string, string>, keys: seq<string>, ghost tail: string)
    returns (out: string)
    requires ValidMeta(m) && forall k :: k in keys ==> k in m
    ensures AllWritable(MetaMembers(m, keys)) && out + tail == data + WriteMembers(MetaMembers(m, keys), tail)
  {
    out := data;
    assert keys[0..] == keys && keys[|keys|..] == [];
    MetaIsWritable(m, keys);
    for n := 0 to |keys|
      invariant out + Remaining(m, keys, n, tail) == data + WriteMembers(MetaMembers(m, keys), tail)
    {
      NextMember(m, keys, n, out, tail);
      out := AppendMember(out, n == 0, keys[n], m[keys[n]]);
    }
  }

  /** An object as the last member. */
  lemma NestedText(data: string, name: string, ms: Members, goal: string)
    requires PlainName(name) && AllWritable(ms) && Completed(data, Then(name, Object(ms), End)) == Some(goal)
    ensures ((data + Key(name)) + "{") + WriteMembers(ms, "}}") == goal
  {
    AwaitsName(data, name, Object(ms), End, goal);
    ObjectText(ms);
    Assoc(data + Key(name), "{", WriteMembers(ms, "}}"));
  }

  lemma ObjectText(ms: Members)
    requires AllWritable(ms)
    ensures Write(Object(ms), Following(End, "}")) == "{" + WriteMembers(ms, "}}")
  {
    assert "}" + "}" == "}}";
  }

  method AppendMeta(data: string, m: map<string, string>, ghost good: bool, ghost goal: string)
    returns (ok: bool, out: string)
    requires good ==> Completed(data, Then("Meta", MetaObject(m), End)) == Some(goal)
    ensures ok <==> ValidMeta(m)
    ensures good && ok ==> out == goal
  {
    var keys;
    ok, keys := SortedMetaKeys(m);
    if !ok {
      return false, [];
    }
    var begun := (data + Key("Meta")) + "{";
    out := AppendMembers(begun, m, keys, "}}");
    out := out + "}}";
    if good {
      NestedText(data, "Meta", MetaMembers(m, keys), goal);
    }
  }

  method CanonicalizeTest(e: Event) returns (ok: bool, data: string)
    requires e.Test?
    ensures ok <==> Canonicalizable(e)
    ensures ok ==> data == Bytes(e)
  {
    ghost var good := Canonicalizable(e);
    ghost var goal := if good then Bytes(e) else "";
    if good {
      BytesAreTheText(e);
    }
    KindIsPlain(e);
    ok, data := AppendHead(e.appName, KindOf(e), good, End, goal);
    if !ok {
      return;
    }
    data := data + "}";
  }

  lemma VerificationText(e: Event)
    requires e.Verification? && Canonicalizable(e)
    ensures TextOf(Headed(e.appName, KindOf(e), Then("Code", Text(e.code), End))) == Some(Bytes(e))
  {
    BytesAreTheText(e);
  }

  method CanonicalizeVerification(e: Event) returns (ok: bool, data: string)
    requires e.Verification?
    ensures ok <==> Canonicalizable(e)
    ensures ok ==> data == Bytes(e)
  {
    ghost var good := Canonicalizable(e);
    ghost var goal := if good then Bytes(e) else "";
    if good {
      VerificationText(e);
    }
    KindIsPlain(e);
    ok, data := AppendVerification(e.appName, KindOf(e), e.code, good, goal);
  }

  method AppendVerification(appName: string, kind: string, code: string, ghost good: bool, ghost goal: string)
    returns (ok: bool, data: string)
    requires PlainName(kind)
    requires good ==>
      && ValidUtf8(appName) && ValidUtf8(code)
      && TextOf(Headed(appName, kind, Then("Code", Text(code), End))) == Some(goal)
    ensures ok <==> ValidUtf8(appName) && ValidUtf8(code)
    ensures good ==> data == goal
  {
    ok, data := AppendHead(appName, kind, good, Then("Code", Text(code), End), goal);
    if !ok {
      return;
    }
    ok, data := AppendLast(data, "Code", code, good, goal);
  }

  method CanonicalizeAlertStatus(e: Event) returns (ok: bool, data: string)
    requires e.AlertStatus?
    ensures ok <==> Canonicalizable(e)
    ensures ok ==> data == Bytes(e)
  {
    ghost var good := Canonicalizable(e);
    ghost var goal := if good then Bytes(e) else "";
    ghost var fields := StatusFields(e.logEntry, e.alertState);
    ghost var id := Then("AlertID", Number(e.alertId), fields);
    if good {
      BytesAreTheText(e);
    }
    KindIsPlain(e);
    ok, data := AppendHead(e.appName, KindOf(e), good, id, goal);
    if !ok {
      return;
    }
    data := AppendNumber(data, "AlertID", e.alertId, good, fields, goal);
    ok, data := AppendStatusFields(data, e.logEntry, e.alertState, good, goal);
  }

  method AppendStatusFields(
      head: string, logEntry: string, alertState: string, ghost good: bool, ghost goal: string)
    returns (ok: bool, data: string)
    requires good ==>
      && ValidUtf8(logEntry) && ValidUtf8(alertState)
      && Completed(head, StatusFields(logEntry, alertState)) == Some(goal)
    ensures ok <==> ValidUtf8(logEntry) && ValidUtf8(alertState)
    ensures good ==> data == goal
  {
    ghost var last := Then("AlertState", Text(alertState), End);
    ok, data := AppendText(head, "LogEntry", logEntry, good, last, goal);
    if !ok {
      return;
    }
    ok, data := AppendLast(data, "AlertState", alertState, good, goal);
  }

  method CanonicalizeAlert(e: Event) returns (ok: bool, data: string)
    requires e.Alert?
    ensures ok <==> Canonicalizable(e)
    ensures ok ==> data == Bytes(e)
  {
    if e.meta.None? {
      return false, [];
    }
    ghost var good := Canonicalizable(e);
    ghost var goal := if good then Bytes(e) else "";
    ghost var fields := AlertFields(e.summary, e.details, e.serviceId, e.serviceName, e.meta.value);
    ghost var id := Then("AlertID", Number(e.alertId), fields);
    if good {
      BytesAreTheText(e);
    }
    KindIsPlain(e);
    ok, data := AppendHead(e.appName, KindOf(e), good, id, goal);
    if !ok {
      return;
    }
    data := AppendNumber(data, "AlertID", e.alertId, good, fields, goal);
    ok, data := AppendAlertFields(data, e, good, goal);
  }

  method AppendAlertFields(head: string, e: Event, ghost good: bool, ghost goal: string)
    returns (ok: bool, data: string)
    requires e.Alert? && e.meta.Some?
    requires good ==>
      && Canonicalizable(e)
      && Completed(head, AlertFields(e.summary, e.details, e.serviceId, e.serviceName, e.meta.value)) == Some(goal)
    ensures ok <==>
      && ValidUtf8(e.summary) && ValidUtf8(e.details) && ValidUtf8(e.serviceId) && ValidUtf8(e.serviceName)
      && ValidMeta(e.meta.value)
    ensures good ==> data == goal
  {
    ghost var service := ServiceFields(e.serviceId, e.serviceName, e.meta.value);
    ghost var details := Then("Details", Text(e.details), service);
    ok, data := AppendText(head, "Summary", e.summary, good, details, goal);
    if !ok {
      return;
    }
    ok, data := AppendText(data, "Details", e.details, good, service, goal);
    if !ok {
      return;
    }
    ok, data := AppendServiceFields(data, e.serviceId, e.serviceName, e.meta.value, good, goal);
  }

  method AppendServiceFields(
      head: string, serviceId: string, serviceName: string, meta: map<string, string>, ghost good: bool,
      ghost goal: string)
    returns (ok: bool, data: string)
    requires good ==>
      && ValidUtf8(serviceId) && ValidUtf8(serviceName) && ValidMeta(meta)
      && Completed(head, ServiceFields(serviceId, serviceName, meta)) == Some(goal)
    ensures ok <==> ValidUtf8(serviceId) && ValidUtf8(serviceName) && ValidMeta(meta)
    ensures good ==> data == goal
  {
    ghost var last := Then("Meta", MetaObject(meta), End);
    ok, data := AppendText(head, "ServiceID", serviceId, good, Then("ServiceName", Text(serviceName), last), goal);
    if !ok {
      return;
    }
    ok, data := AppendText(data, "ServiceName", serviceName, good, last, goal);
    if !ok {
      return;
    }
    ok, data := AppendMeta(data, meta, good, goal);
  }

  /** Canonicalization accepts exactly the acceptable events and writes their canonical bytes. */
  method Canonicalize(e: Event) returns (r: Option<string>)
    ensures r.Some? <==> Canonicalizable(e)
    ensures r.Some? ==> r.value == Bytes(e)
  {
    var ok, data;
    match e {
      case Test(_) => ok, data := CanonicalizeTest(e);
      case Verification(_, _) => ok, data := CanonicalizeVerification(e);
      case Alert(_, _, _, _, _, _, _) => ok, data := CanonicalizeAlert(e);
      case AlertStatus(_, _, _, _) => ok, data := CanonicalizeAlertStatus(e);
      case Unsupported => ok, data := false, [];
    }
    r := if ok then Some(data) else None;
  }
}
