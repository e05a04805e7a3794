/**
  The in-place delimiter tokenizer `strtok_my` and the pure description of what
  repeated calls to it return: the delimiter-ended segments of a C string.
  Every sentence parser splits its work buffer with it on ',', and the epoch
  buffer is split with it on '\n'.
 */
module Tokenizer {
  import opened Wrappers

  /** Position of the first `c` in `s`, or `|s|` when `s` holds none. */
  function IndexOf(s: string, c: char): (i: nat)
    ensures i <= |s|
    ensures i < |s| ==> s[i] == c
    ensures forall j :: 0 <= j < i ==> s[j] != c
  {
    if s == [] then 0 else if s[0] == c then 0 else 1 + IndexOf(s[1..], c)
  }

  /**
    The segments of `s` that a delimiter `d` ends, in order, empty ones
    included. Whatever follows the last `d` is not a segment.
   */
  function Segments(s: string, d: char): seq<string>
    decreases |s|
  {
    var i := IndexOf(s, d);
    if i == |s| then [] else [s[..i]] + Segments(s[i + 1..], d)
  }

  /** The text after the last `d` of `s` (all of `s` when it holds no `d`). */
  function Tail(s: string, d: char): string
    decreases |s|
  {
    var i := IndexOf(s, d);
    if i == |s| then s else Tail(s[i + 1..], d)
  }

  /** Each of `xs` followed by `d`, concatenated. */
  function JoinEnded(xs: seq<string>, d: char): string
  {
    if xs == [] then [] else xs[0] + [d] + JoinEnded(xs[1..], d)
  }

  lemma {:induction false} JoinEndedSnoc(xs: seq<string>, x: string, d: char)
    ensures JoinEnded(xs + [x], d) == JoinEnded(xs, d) + x + [d]
  {
    if xs == [] {
      assert [] + [x] == [x];
    } else {
      assert (xs + [x])[1..] == xs[1..] + [x];
      JoinEndedSnoc(xs[1..], x, d);
    }
  }

  /** A segment without the delimiter, the delimiter, then anything: the first segment is split off. */
  lemma SegmentsCons(x: string, r: string, d: char)
    requires d !in x
    ensures Segments(x + [d] + r, d) == [x] + Segments(r, d)
  {
    var s := x + [d] + r;
    assert s[|x|] == d;
    assert forall j :: 0 <= j < |x| ==> s[j] != d by {
      forall j | 0 <= j < |x| ensures s[j] != d {
        assert s[j] == x[j];
      }
    }
    assert IndexOf(s, d) == |x|;
    assert s[..|x|] == x;
    assert s[|x| + 1..] == r;
  }

  /** Text without the delimiter has no segment. */
  lemma SegmentsNone(t: string, d: char)
    requires d !in t
    ensures Segments(t, d) == [] && Tail(t, d) == t
  {
    assert forall j :: 0 <= j < |t| ==> t[j] != d;
  }

  /**
    Splitting undoes joining: the delimiter-ended segments of the joined
    text are exactly the joined pieces, and a trailing piece that no
    delimiter ends is dropped.
   */
  lemma {:induction false} SegmentsOfJoinEnded(xs: seq<string>, t: string, d: char)
    requires forall k :: 0 <= k < |xs| ==> d !in xs[k]
    requires d !in t
    ensures Segments(JoinEnded(xs, d) + t, d) == xs
    ensures Tail(JoinEnded(xs, d) + t, d) == t
  {
    if xs == [] {
      assert JoinEnded(xs, d) + t == t;
      SegmentsNone(t, d);
    } else {
      var r := JoinEnded(xs[1..], d) + t;
      assert JoinEnded(xs, d) + t == xs[0] + [d] + r;
      SegmentsCons(xs[0], r, d);
      SegmentsOfJoinEnded(xs[1..], t, d);
      assert Tail(xs[0] + [d] + r, d) == Tail(r, d) by {
        var s := xs[0] + [d] + r;
        assert s[|xs[0]|] == d;
        assert forall j :: 0 <= j < |xs[0]| ==> s[j] != d by {
          forall j | 0 <= j < |xs[0]| ensures s[j] != d {
            assert s[j] == xs[0][j];
          }
        }
        assert IndexOf(s, d) == |xs[0]|;
        assert s[|xs[0]| + 1..] == r;
      }
    }
  }

  /**
    Every text is its delimiter-ended segments, each followed by the
    delimiter, and then its tail.
   */
  lemma {:induction false} SegmentsRebuild(s: string, d: char)
    ensures s == JoinEnded(Segments(s, d), d) + Tail(s, d)
    decreases |s|
  {
    var i := IndexOf(s, d);
    if i == |s| {
      assert forall j :: 0 <= j < |s| ==> s[j] != d;
      SegmentsNone(s, d);
    } else {
      var rest := s[i + 1..];
      SegmentsRebuild(rest, d);
      var head := s[..i];
      var joined := JoinEnded(Segments(rest, d), d);
      assert Segments(s, d) == [head] + Segments(rest, d);
      assert JoinEnded(Segments(s, d), d) == head + [d] + joined;
      assert Tail(s, d) == Tail(rest, d);
      SplitAt(s, i);
      ConcatAssoc(head + [d], joined, Tail(rest, d));
    }
  }

  lemma SplitAt(s: string, i: nat)
    requires i < |s|
    ensures s == s[..i] + [s[i]] + s[i + 1..]
  {
  }

  lemma ConcatAssoc(a: string, b: string, c: string)
    ensures (a + b) + c == a + (b + c)
  {
  }

  /** The tail holds no delimiter. */
  lemma {:induction false} TailExcludesDelimiter(s: string, d: char)
    ensures d !in Tail(s, d)
    decreases |s|
  {
    var i := IndexOf(s, d);
    if i == |s| {
      assert forall j :: 0 <= j < |s| ==> s[j] != d;
    } else {
      TailExcludesDelimiter(s[i + 1..], d);
    }
  }

  /** No segment holds the delimiter. */
  lemma {:induction false} SegmentsExcludeDelimiter(s: string, d: char, k: nat)
    requires k < |Segments(s, d)|
    ensures d !in Segments(s, d)[k]
    decreases |s|
  {
    var i := IndexOf(s, d);
    if k > 0 {
      SegmentsExcludeDelimiter(s[i + 1..], d, k - 1);
    }
  }

  /** A C string in `buf`: it starts at `from`, holds no NUL and `buf[end]` terminates it. */
  ghost predicate CString(buf: array<char>, from: nat, end: nat)
    reads buf
  {
    from <= end < buf.Length && buf[end] == '\0' &&
    forall j :: from <= j < end ==> buf[j] != '\0'
  }

  /**
    strtok_my(rest, c, &dest): scan the C string at `rest` for `c`. When found
    at position p, overwrite it with NUL, set the cursor to p + 1 and return
    the text before it; otherwise return NULL and change neither the buffer
    nor the cursor. The text after the last `c` is therefore never returned.
   */
  method StrtokMy(buf: array<char>, rest: nat, c: char, ghost end: nat) returns (token: Option<string>, dest: nat)
    requires CString(buf, rest, end)
    modifies buf
    ensures var s := old(buf[rest..end]);
      var i := IndexOf(s, c);
      if i < |s| then
        token == Some(s[..i]) && dest == rest + i + 1 &&
        buf[..] == old(buf[..])[rest + i := '\0']
      else
        token == None && dest == rest && buf[..] == old(buf[..])
  {
    ghost var s := buf[rest..end];
    var p := rest;
    while buf[p] != '\0'
      invariant rest <= p <= end
      invariant buf[..] == old(buf[..])
      invariant forall j :: rest <= j < p ==> buf[j] != c
      decreases end - p
    {
      if buf[p] == c {
        assert s[p - rest] == c;
        assert forall j :: 0 <= j < p - rest ==> s[j] != c by {
          forall j | 0 <= j < p - rest ensures s[j] != c {
            assert s[j] == buf[rest + j];
          }
        }
        assert IndexOf(s, c) == p - rest;
        buf[p] := '\0';
        assert buf[rest..p] == s[..p - rest];
        return Some(buf[rest..p]), p + 1;
      }
      p := p + 1;
    }
    assert forall j :: 0 <= j < |s| ==> s[j] != c by {
      forall j | 0 <= j < |s| ensures s[j] != c {
        assert s[j] == buf[rest + j];
      }
    }
    return None, rest;
  }

  /** The segments still to come, after one more is taken at `rest`. */
  lemma SegmentsAdvance(payload: string, rest: nat, seen: seq<string>, t: string, next: nat, d: char)
    requires rest <= |payload|
    requires Segments(payload, d) == seen + Segments(payload[rest..], d)
    requires var s := payload[rest..];
      IndexOf(s, d) < |s| && t == s[..IndexOf(s, d)] && next == rest + IndexOf(s, d) + 1
    ensures next <= |payload|
    ensures Segments(payload, d) == (seen + [t]) + Segments(payload[next..], d)
  {
    var s := payload[rest..];
    var later := Segments(payload[next..], d);
    assert s[IndexOf(s, d) + 1..] == payload[next..];
    assert Segments(s, d) == [t] + later;
    assert seen + ([t] + later) == (seen + [t]) + later;
  }

  /** The unread part of a buffer is a NUL-terminated C string. */
  lemma NoNulInSuffix(buf: array<char>, rest: nat, len: nat, payload: string)
    requires rest <= len < buf.Length && buf[len] == '\0' && |payload| == len
    requires buf[rest..len] == payload[rest..] && '\0' !in payload
    ensures CString(buf, rest, len)
  {
    forall j | rest <= j < len ensures buf[j] != '\0' {
      assert buf[j] == buf[rest..len][j - rest] == payload[j];
    }
  }

  /** Cutting a field at `cut` leaves the text after the cut as it was. */
  lemma CutKeepsRest(before: seq<char>, after: seq<char>, rest: nat, cut: nat, len: nat, payload: string)
    requires rest <= cut < len < |before| && |payload| == len
    requires after == before[cut := '\0']
    requires before[rest..len] == payload[rest..] && before[len] == '\0'
    ensures after[cut + 1..len] == payload[cut + 1..] && after[len] == '\0'
  {
    assert forall j :: cut + 1 <= j < len ==> after[j] == before[j] == before[rest..len][j - rest];
  }

  /** A token cut from a C string holds no NUL. */
  lemma TokenHasNoNul(text: seq<char>, rest: nat, end: nat, i: nat)
    requires rest <= end <= |text| && i <= end - rest
    requires forall j :: rest <= j < end ==> text[j] != '\0'
    ensures '\0' !in text[rest..end][..i]
  {
    forall k | 0 <= k < i ensures text[rest..end][..i][k] != '\0' {
      assert text[rest..end][..i][k] == text[rest + k];
    }
  }

  /** Writing below `from` leaves the array from `from` on as it was. */
  lemma WriteBelowKeepsSuffix(before: seq<char>, after: seq<char>, k: nat, x: char, from: nat)
    requires k < from <= |before| && after == before[k := x]
    ensures after[from..] == before[from..]
  {
  }
}
