/** `HTMLTreeParser`: the tokenizer callbacks that record a flat list of
    markup events in two parallel lists, `members` and `types`. The tokenizer
    itself is not modelled; its callbacks are the methods below. */
module Recorder {
  import opened PyStr

  /** The strings `'starttag'`, `'endtag'` and `'data'` of `types`. */
  datatype Kind = StartTagKind | EndTagKind | DataKind

  /** An entry of `members`: a `(tag, attrs)` pair for a start tag, a plain
      string (tag name or stripped data) otherwise. */
  datatype Member = TagWithAttrs(name: string, attrs: seq<(string, string)>) | Str(s: string)

  /** One recorded event, as the tree builder reads `zip(types, members)`. */
  datatype Event = StartTag(tag: string, attrs: seq<(string, string)>) | EndTag(tag: string) | Text(data: string)

  /** `types[i]` and `members[i]` belong together, and recorded data is
      stripped and non-empty. */
  predicate Matches(k: Kind, m: Member)
  {
    match k
    case StartTagKind => m.TagWithAttrs?
    case EndTagKind => m.Str?
    case DataKind => m.Str? && m.s != [] && Strip(m.s) == m.s
  }

  function ToEvent(k: Kind, m: Member): Event
    requires Matches(k, m)
  {
    match k
    case StartTagKind => StartTag(m.name, m.attrs)
    case EndTagKind => EndTag(m.s)
    case DataKind => Text(m.s)
  }

  /** `zip(types, members)`, read as events. */
  function Zip(ts: seq<Kind>, ms: seq<Member>): (es: seq<Event>)
    requires |ts| == |ms| && forall i | 0 <= i < |ts| :: Matches(ts[i], ms[i])
  {
    seq(|ts|, i requires 0 <= i < |ts| => ToEvent(ts[i], ms[i]))
  }

  /** Appending one matching pair keeps the lists paired and adds one event. */
  lemma ZipSnoc(ts: seq<Kind>, ms: seq<Member>, k: Kind, m: Member)
    requires |ts| == |ms| && forall i | 0 <= i < |ts| :: Matches(ts[i], ms[i])
    requires Matches(k, m)
    ensures |ts + [k]| == |ms + [m]|
    ensures forall i | 0 <= i < |ts + [k]| :: Matches((ts + [k])[i], (ms + [m])[i])
    ensures Zip(ts + [k], ms + [m]) == Zip(ts, ms) + [ToEvent(k, m)]
  {
    assert forall i | 0 <= i < |ts| :: (ts + [k])[i] == ts[i] && (ms + [m])[i] == ms[i];
  }

  class HTMLTreeParser {
    var members: seq<Member>
    var types: seq<Kind>

    ghost predicate Valid()
      reads this
    {
      && |members| == |types|
      && forall i | 0 <= i < |types| :: Matches(types[i], members[i])
    }

    /** The recorded events, `zip(types, members)`. */
    function Events(): (es: seq<Event>)
      reads this
      requires Valid()
    {
      Zip(types, members)
    }

    constructor ()
      ensures Valid() && members == [] && types == [] && Events() == []
    {
      members := [];
      types := [];
    }

    method HandleStartTag(tag: string, attrs: seq<(string, string)>)
      requires Valid()
      modifies this
      ensures Valid()
      ensures members == old(members) + [TagWithAttrs(tag, attrs)]
      ensures types == old(types) + [StartTagKind]
      ensures Events() == old(Events()) + [StartTag(tag, attrs)]
    {
      ZipSnoc(types, members, StartTagKind, TagWithAttrs(tag, attrs));
      members := members + [TagWithAttrs(tag, attrs)];
      types := types + [StartTagKind];
    }

    method HandleEndTag(tag: string)
      requires Valid()
      modifies this
      ensures Valid()
      ensures members == old(members) + [Str(tag)]
      ensures types == old(types) + [EndTagKind]
      ensures Events() == old(Events()) + [EndTag(tag)]
    {
      ZipSnoc(types, members, EndTagKind, Str(tag));
      members := members + [Str(tag)];
      types := types + [EndTagKind];
    }

    /** Records the stripped data, unless it is empty after stripping (a
        whitespace-only run between tags records nothing). */
    method HandleData(data: string)
      requires Valid()
      modifies this
      ensures Valid()
      ensures AllSpace(data) ==> members == old(members) && types == old(types)
      ensures !AllSpace(data) ==>
        && members == old(members) + [Str(Strip(data))]
        && types == old(types) + [DataKind]
        && Events() == old(Events()) + [Text(Strip(data))]
    {
      var stripped := Strip(data);
      StrippedData(data);
      if stripped != [] {
        ZipSnoc(types, members, DataKind, Str(stripped));
        members := members + [Str(stripped)];
        types := types + [DataKind];
      }
    }
  }

  /** Stripped data is recordable exactly when it is not all whitespace. */
  lemma StrippedData(data: string)
    ensures Strip(data) == [] <==> AllSpace(data)
    ensures Strip(data) != [] ==> Matches(DataKind, Str(Strip(data)))
  {
    StripEmpty(data);
    StripIdempotent(data);
  }

  /** Every recorded data event is non-empty and has no leading or trailing
      whitespace. */
  lemma RecordedTextIsStripped(p: HTMLTreeParser, i: nat)
    requires p.Valid() && i < |p.Events()| && p.Events()[i].Text?
    ensures p.Events()[i].data != []
    ensures !IsSpace(p.Events()[i].data[0]) && !IsSpace(p.Events()[i].data[|p.Events()[i].data| - 1])
  {
    var d := p.Events()[i].data;
    StripShape(d);
  }
}
