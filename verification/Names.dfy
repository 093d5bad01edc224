/** Under which name the server files what a client publishes, for every name the client accepts. */
module Names {
  import opened Strings
  import opened Registry
  import opened Lines
  import opened Protocol
  import opened Client
  import opened Requests
  import opened Traffic

  /** The visit is a PUBLISH of `name`, as the client sends it. */
  ghost predicate Carries(v: Visit, date: Text, user: Text, name: Text, description: Text) {
    && DelimiterFree(date) && DelimiterFree(user)
    && Delivers(v.events, Wire("PUBLISH", [date, user, WithoutSpaces(name), description]))
  }

  ghost predicate PublishOf(v: Visit, name: Text) {
    exists date, user, description :: Carries(v, date, user, name, description)
  }

  /** The name in the operation the server performs for a visit, if that publishes. */
  function FiledBy(prior: Text, v: Visit): Option<Text> {
    var asked := Requested(prior, v);
    if asked != [] && asked[0].Publish? then Some(asked[0].file) else None
  }

  lemma {:induction false} FieldsWhole(head: seq<Event>, rest: seq<Event>, count: nat)
    requires NeverFails(head) && count <= Delimiters(Octets(head))
    ensures ReadFields(head + rest, count).Some?
    decreases count
  {
    if count > 0 {
      var more := ClosedField(head, rest);
      FieldsWhole(more, rest, count - 1);
    }
  }

  lemma {:induction false} FieldsDelivered(events: seq<Event>, octets: Text, count: nat)
    requires Delivers(events, octets) && count <= Delimiters(octets)
    ensures ReadFields(events, count).Some?
  {
    var head :| DeliversWith(events, octets, head);
    assert events == head + events[|head|..];
    assert Octets(head) == octets + Octets(head)[|octets|..];
    FieldsWhole(head, events[|head|..], count);
  }

  /** The third field from here on is the name up to its first delimiter. */
  lemma {:induction false} ThirdField(events: seq<Event>, date: Text, user: Text, name: Text, description: Text)
    requires DelimiterFree(date) && DelimiterFree(user)
    requires Delivers(events, date + [NUL] + (user + [NUL] + (name + [NUL] + (description + [NUL]))))
    ensures ReadFields(events, 4).Some? && |ReadFields(events, 4).value| == 4
    ensures ReadFields(events, 4).value[2] == Truncated(UpToDelimiter(name))
  {
    hide ReadFields, Truncated;
    var tail := description + [NUL];
    InterruptsInvisible(events, date, NUL, user + [NUL] + (name + [NUL] + tail));
    InterruptsInvisible(Rest(events), user, NUL, name + [NUL] + tail);
    FieldIsCut(Rest(Rest(events)), name, NUL, tail);
    FieldsDelivered(events, date + [NUL] + (user + [NUL] + (name + [NUL] + tail)), 4);
    FirstField(events, 4); FirstField(Rest(events), 3); FirstField(Rest(Rest(events)), 2);
  }

  lemma {:induction false} FirstField(events: seq<Event>, count: nat)
    requires count > 0 && ReadFields(events, count).Some?
    ensures ReadFields(Rest(events), count - 1).Some?
    ensures ReadFields(events, count).value == [Truncated(Payload(events))] + ReadFields(Rest(events), count - 1).value
    ensures |ReadFields(events, count).value| == count
  {
    ReadFieldsCount(events, count);
  }

  /** Every PUBLISH, whatever its name and description hold, files the name without its spaces, up to
      its first delimiter, cut to 255 octets. */
  lemma {:induction false} FiledUnder(prior: Text, v: Visit, name: Text)
    requires PublishOf(v, name)
    ensures FiledBy(prior, v) == Some(Truncated(UpToDelimiter(WithoutSpaces(name))))
  {
    hide ReadFields, Truncated, UpToDelimiter, WithoutSpaces, Delivers, Wire, Framed, Keyword;
    var date, user, description :| Carries(v, date, user, name, description);
    var fields := [date, user, WithoutSpaces(name), description];
    MessagesAreWire(fields);
    KeywordsDistinct(KPublish);
    FramedFields(Keyword(KPublish), fields);
    var rest := date + [NUL] + (user + [NUL] + (WithoutSpaces(name) + [NUL] + (description + [NUL])));
    assert Message(KPublish, fields) == Keyword(KPublish) + [NUL] + rest;
    InterruptsInvisible(v.events, Keyword(KPublish), NUL, rest);
    ThirdField(Rest(v.events), date, user, WithoutSpaces(name), description);
  }

  lemma {:induction false} FramedFields(w: Text, f: seq<Text>)
    requires |f| == 4
    ensures Framed([w] + f) == w + [NUL] + (f[0] + [NUL] + (f[1] + [NUL] + (f[2] + [NUL] + (f[3] + [NUL]))))
  {
    var last := [f[3]];
    assert last[1..] == [] && Framed(last) == f[3] + [NUL];
    assert f[1..][1..] == f[2..] && f[2..][1..] == [f[3]] && ([w] + f)[1..] == f;
    assert Framed(f[1..]) == f[1] + [NUL] + Framed(f[2..]);
  }

  /** Two names the client accepts are filed as one exactly when, without their spaces, they agree up to
      the first delimiter. So names without spaces and delimiters stay distinct. */
  lemma {:induction false} AcceptedNamesFiledAsOne(a: Text, va: Visit, priorA: Text, b: Text, vb: Visit, priorB: Text)
    requires PublishOf(va, a) && PublishOf(vb, b) && |a| <= 255 && |b| <= 255
    ensures FiledBy(priorA, va).Some? && FiledBy(priorB, vb).Some?
    ensures FiledBy(priorA, va) == FiledBy(priorB, vb) <==>
      UpToDelimiter(WithoutSpaces(a)) == UpToDelimiter(WithoutSpaces(b))
    ensures DelimiterFree(a) && DelimiterFree(b) && SPACE !in a && SPACE !in b ==>
      (FiledBy(priorA, va) == FiledBy(priorB, vb) <==> a == b)
  {
    hide PublishOf, FiledBy;
    FiledUnder(priorA, va, a);
    FiledUnder(priorB, vb, b);
    AcceptedIsWhole(a); AcceptedIsWhole(b);
  }

  lemma {:induction false} AcceptedIsWhole(name: Text)
    requires |name| <= 255
    ensures Truncated(UpToDelimiter(WithoutSpaces(name))) == UpToDelimiter(WithoutSpaces(name))
  {
  }

  // ----- names that collide -----

  function PublishVisit(name: Text): Visit {
    Visit(Stream(Wire("PUBLISH", [[], [], WithoutSpaces(name), []])), true, NoPeer, [])
  }

  lemma {:induction false} IsPublishVisit(name: Text)
    ensures PublishOf(PublishVisit(name), name)
  {
    var v := PublishVisit(name);
    assert DeliversWith(v.events, Wire("PUBLISH", [[], [], WithoutSpaces(name), []]), v.events);
    assert Carries(v, [], [], name, []);
  }

  /** Two accepted names without spaces, different from each other, that the server files as one: a NUL
      ends both early. */
  lemma {:induction false} AcceptedNamesCanCollide(prior: Text)
    ensures
      var a, b := [97, NUL, 98], [97, NUL, 99];
      && |a| <= 255 && |b| <= 255 && WithoutSpaces(a) != WithoutSpaces(b)
      && FiledBy(prior, PublishVisit(a)) == FiledBy(prior, PublishVisit(b)) == Some([97])
  {
    hide FiledBy, PublishVisit;
    var a, b: Text := [97, NUL, 98], [97, NUL, 99];
    IsPublishVisit(a); IsPublishVisit(b);
    FiledUnder(prior, PublishVisit(a), a); FiledUnder(prior, PublishVisit(b), b);
    assert WithoutSpaces(a) == a && WithoutSpaces(b) == b;
    CutAt(a, 1); CutAt(b, 1);
  }

  lemma {:induction false} CutAt(s: Text, k: nat)
    requires k < |s| && DelimiterFree(s[..k]) && IsDelimiter(s[k])
    ensures UpToDelimiter(s) == s[..k]
  {
    var p := UpToDelimiter(s);
    assert forall j | 0 <= j < |p| :: p[j] == s[j] && p[j] in p;
    assert forall j | 0 <= j < k :: s[j] in s[..k];
  }

  /** The size check is needed as well: without it two names free of spaces and delimiters can be filed
      as one. */
  lemma {:induction false} LongNamesCollide(prior: Text)
    ensures
      var a, b := seq(256, _ => 97), seq(257, _ => 97);
      && a != b && DelimiterFree(a) && DelimiterFree(b)
      && FiledBy(prior, PublishVisit(a)) == FiledBy(prior, PublishVisit(b))
  {
    hide FiledBy, PublishVisit;
    var a, b: Text := seq(256, _ => 97), seq(257, _ => 97);
    assert SPACE !in a && SPACE !in b && DelimiterFree(a) && DelimiterFree(b);
    IsPublishVisit(a); IsPublishVisit(b);
    FiledUnder(prior, PublishVisit(a), a); FiledUnder(prior, PublishVisit(b), b);
    assert a[..255] == b[..255];
  }
}
