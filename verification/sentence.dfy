/**
  What every sentence parser does before decoding: check the type tag at
  offset 3, find the '*' that starts the checksum, copy the text between
  '$' and '*' into a 256-character work buffer, split that buffer on ','
  with `strtok_my`, and copy each positional field into a fixed-size scratch
  buffer, cut to the buffer's size minus one.
 */
module Sentence {
  import opened Wrappers
  import opened Tokenizer

  /** Size of the work buffer every parser copies the payload into. */
  const WorkBufferSize: nat := 256

  /** strncmp(s + 3, tag ",", 4) == 0: the sentence carries type `tag` at offset 3. */
  predicate HasType(s: string, tag: string) {
    |s| >= 7 && s[3..7] == tag + [',']
  }

  /**
    The return code of a parser's structural checks: -2 for a wrong type
    tag, -3 when there is no '*', -4 when the text between '$' and '*' does
    not fit the work buffer, 0 otherwise. A '*' at index 0 makes the length
    -1, which the C comparison with an unsigned size turns into a huge value,
    so it is -4 as well.
   */
  function FrameCode(s: string, tag: string): int {
    if !HasType(s, tag) then -2
    else if '*' !in s then -3
    else if IndexOf(s, '*') == 0 || IndexOf(s, '*') - 1 >= WorkBufferSize then -4
    else 0
  }

  /** The text between the leading '$' (any first character) and the first '*'. */
  function Payload(s: string, tag: string): (p: string)
    requires FrameCode(s, tag) == 0
    ensures |p| < WorkBufferSize && '*' !in p
  {
    var star := IndexOf(s, '*');
    assert forall j :: 0 <= j < |s[1..star]| ==> s[1..star][j] == s[1 + j];
    s[1..star]
  }

  /** The first `c` of `x + [c] + y`, when `x` holds none, is at |x|. */
  lemma {:induction false} IndexOfAfter(x: string, y: string, c: char)
    requires c !in x
    ensures IndexOf(x + [c] + y, c) == |x|
  {
    if x != [] {
      assert (x + [c] + y)[1..] == x[1..] + [c] + y;
      IndexOfAfter(x[1..], y, c);
    }
  }

  /**
    Framing round trip: a '$', a payload of fewer than 256 characters without
    '*' whose characters 2 to 5 are the tag and ',', then '*' and any checksum
    text passes every check, and the payload is exactly what is copied out.
   */
  lemma FramedPayload(p: string, tag: string, checksum: string)
    requires |tag| == 3 && 6 <= |p| < WorkBufferSize && '*' !in p && p[2..6] == tag + [',']
    ensures FrameCode(['$'] + p + ['*'] + checksum, tag) == 0
    ensures Payload(['$'] + p + ['*'] + checksum, tag) == p
  {
    var s := ['$'] + p + ['*'] + checksum;
    assert '*' !in ['$'] + p;
    assert s == (['$'] + p) + ['*'] + checksum;
    IndexOfAfter(['$'] + p, checksum, '*');
    assert s[3..7] == p[2..6];
    assert s[1..1 + |p|] == p;
  }

  /** What the checks reject: each failure code names the first check that fails. */
  lemma FrameCodeCases(s: string, tag: string)
    ensures FrameCode(s, tag) == -2 <==> !HasType(s, tag)
    ensures FrameCode(s, tag) == -3 <==> HasType(s, tag) && '*' !in s
    ensures FrameCode(s, tag) == -4 <==> HasType(s, tag) && '*' in s && (s[0] == '*' || IndexOf(s, '*') > WorkBufferSize)
    ensures FrameCode(s, tag) == 0 ==> s[1 + |Payload(s, tag)|] == '*' && Payload(s, tag) == s[1..1 + |Payload(s, tag)|]
  {
  }

  /** strncpy(scratch, token, size - 1) into a zeroed scratch buffer of `size` characters. */
  function Clip(t: string, size: nat): (r: string)
    ensures size > 0 ==> |r| < size
    ensures r <= t
  {
    if size == 0 then [] else if |t| < size then t else t[..size - 1]
  }

  /**
    The scratch buffers after the field loop: field k + 2 (field 1 is the
    talker and type) lands, clipped, in scratch buffer k; a buffer whose
    field never came stays empty, and fields past the last buffer are dropped.
   */
  function Slots(fields: seq<string>, sizes: seq<nat>): (slots: seq<string>)
    ensures |slots| == |sizes|
  {
    seq(|sizes|, k requires 0 <= k < |sizes| =>
      if k + 1 < |fields| then Clip(fields[k + 1], sizes[k]) else [])
  }

  /** The scratch buffers a successful parser of type `tag` decodes. */
  function Fields(s: string, tag: string, sizes: seq<nat>): (slots: seq<string>)
    requires FrameCode(s, tag) == 0
    ensures |slots| == |sizes|
  {
    Slots(Segments(Payload(s, tag), ','), sizes)
  }

  /** A field lands in its own scratch buffer, clipped to the buffer's size minus one. */
  lemma SlotHoldsField(fields: seq<string>, sizes: seq<nat>, k: nat)
    requires k < |sizes| && sizes[k] > 0
    ensures |Slots(fields, sizes)[k]| < sizes[k]
    ensures k + 1 < |fields| ==> Slots(fields, sizes)[k] <= fields[k + 1]
    ensures k + 1 < |fields| && |fields[k + 1]| < sizes[k] ==> Slots(fields, sizes)[k] == fields[k + 1]
    ensures k + 1 >= |fields| ==> Slots(fields, sizes)[k] == []
  {
  }

  /** Fields past the last scratch buffer never influence the scratch buffers. */
  lemma SlotsIgnoreLaterFields(fields: seq<string>, more: seq<string>, sizes: seq<nat>)
    requires |fields| == |sizes| + 1
    ensures Slots(fields + more, sizes) == Slots(fields, sizes)
  {
    assert forall k :: 1 <= k < |fields| ==> (fields + more)[k] == fields[k];
  }

  /**
    The field right before '*' is never decoded: with `ended` the
    comma-ended fields of the payload and `last` the text after the last
    comma, scratch buffer `|ended| - 1` (where `last` would go) stays empty.
   */
  lemma {:induction false} FinalFieldDropped(ended: seq<string>, last: string, sizes: seq<nat>)
    requires forall k :: 0 <= k < |ended| ==> ',' !in ended[k]
    requires ',' !in last
    requires 0 < |ended| <= |sizes|
    ensures Slots(Segments(JoinEnded(ended, ',') + last, ','), sizes)[|ended| - 1] == []
  {
    SegmentsOfJoinEnded(ended, last, ',');
  }

  /** One more field fills the scratch buffer it is routed to. */
  lemma SlotsSnocRouted(fields: seq<string>, t: string, sizes: seq<nat>)
    requires 1 <= |fields| <= |sizes|
    ensures Slots(fields + [t], sizes) == Slots(fields, sizes)[|fields| - 1 := Clip(t, sizes[|fields| - 1])]
  {
    assert forall k :: 1 <= k < |fields| ==> (fields + [t])[k] == fields[k];
  }

  /** The first field, and any field past the last scratch buffer, fills none. */
  lemma SlotsSnocDropped(fields: seq<string>, t: string, sizes: seq<nat>)
    requires |fields| == 0 || |fields| > |sizes|
    ensures Slots(fields + [t], sizes) == Slots(fields, sizes)
  {
    assert forall k :: 1 <= k < |fields| ==> (fields + [t])[k] == fields[k];
  }

  /**
    The field loop of every parser: split the C string buf[0..len) with
    strtok_my on ',', count the fields, and strncpy field k + 2 into scratch
    buffer k. The scratch buffers are the values of `slots`.
   */
  method SplitFields(buf: array<char>, len: nat, sizes: seq<nat>) returns (slots: seq<string>)
    requires CString(buf, 0, len)
    modifies buf
    ensures slots == Slots(Segments(old(buf[..len]), ','), sizes)
  {
    ghost var payload := buf[..len];
    assert '\0' !in payload;
    slots := seq(|sizes|, _ => []);
    ghost var seen: seq<string> := [];
    var rest := 0;
    var fieldCount := 0;
    var done := false;
    while !done
      invariant rest <= len < buf.Length && buf[len] == '\0'
      invariant buf[rest..len] == payload[rest..]
      invariant Segments(payload, ',') == seen + Segments(payload[rest..], ',')
      invariant fieldCount == |seen|
      invariant slots == Slots(seen, sizes)
      invariant done ==> Segments(payload[rest..], ',') == []
      decreases len - rest, if done then 0 else 1
    {
      NoNulInSuffix(buf, rest, len, payload);
      ghost var before := buf[..];
      var token, next := StrtokMy(buf, rest, ',', len);
      match token {
        case None =>
          done := true;
        case Some(t) =>
          SegmentsAdvance(payload, rest, seen, t, next, ',');
          CutKeepsRest(before, buf[..], rest, next - 1, len, payload);
          fieldCount := fieldCount + 1;
          if 2 <= fieldCount && fieldCount - 2 < |sizes| {
            SlotsSnocRouted(seen, t, sizes);
            slots := slots[fieldCount - 2 := Clip(t, sizes[fieldCount - 2])];
          } else {
            SlotsSnocDropped(seen, t, sizes);
          }
          seen := seen + [t];
          rest := next;
      }
    }
    assert seen == Segments(payload, ',');
  }

  /**
    The shared front half of a parser: the structural checks, then (only when
    they pass) the copy of the payload into a fresh work buffer and the field
    loop over it.
   */
  method ReadFields(s: string, tag: string, sizes: seq<nat>) returns (code: int, slots: seq<string>)
    requires '\0' !in s
    ensures code == FrameCode(s, tag)
    ensures code == 0 ==> slots == Fields(s, tag, sizes)
  {
    code := FrameCode(s, tag);
    if code != 0 {
      return code, [];
    }
    var payload := Payload(s, tag);
    var buf := new char[WorkBufferSize](_ => '\0');
    for i := 0 to |payload|
      invariant buf[..i] == payload[..i]
      invariant forall j :: i <= j < WorkBufferSize ==> buf[j] == '\0'
    {
      buf[i] := payload[i];
    }
    assert buf[..|payload|] == payload;
    assert forall j :: 0 <= j < |payload| ==> buf[j] != '\0' by {
      forall j | 0 <= j < |payload| ensures buf[j] != '\0' {
        assert buf[j] == payload[j] == s[1 + j];
      }
    }
    slots := SplitFields(buf, |payload|, sizes);
  }
}
