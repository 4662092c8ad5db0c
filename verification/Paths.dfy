/** Reading the path of a found string back into the segments of its route. */
module Paths {
  import opened Text
  import opened ScanSpec

  function PutFirst(c: char, segs: seq<string>): seq<string>
    requires segs != []
  {
    [[c] + segs[0]] + segs[1..]
  }

  /** Splits at dots that are not escaped and removes the escapes. */
  function Segments(p: string): (segs: seq<string>)
    ensures segs != []
  {
    if p == "" then [""]
    else if p[0] == '.' then [""] + Segments(p[1..])
    else if p[0] == '\\' && |p| >= 2 then PutFirst(p[1], Segments(p[2..]))
    else PutFirst(p[0], Segments(p[1..]))
  }

  function Unjoin(p: string): seq<string> {
    if p == "" then [] else Segments(p)
  }

  function Texts(stack: seq<Segment>): seq<string> {
    seq(|stack|, i requires 0 <= i < |stack| => SegmentText(stack[i]))
  }

  /** Escaped segments joined with a dot between any two. */
  function Join(ts: seq<string>): string
    requires ts != []
  {
    if |ts| == 1 then EscapeKey(ts[0]) else EscapeKey(ts[0]) + ("." + Join(ts[1..]))
  }

  lemma {:induction false} JoinSnoc(ts: seq<string>, t: string)
    requires ts != []
    ensures Join(ts + [t]) == Join(ts) + "." + EscapeKey(t)
  {
    hide EscapeKey;
    assert (ts + [t])[1..] == ts[1..] + [t];
    if |ts| == 1 {
      assert Join([t]) == EscapeKey(t);
      assert ts[1..] + [t] == [t];
    } else {
      JoinSnoc(ts[1..], t);
    }
  }

  /** Digits need no escape. */
  lemma {:induction false} EscapeDigits(s: string)
    requires All(IsDigit, s)
    ensures EscapeKey(s) == s
  {
    if s != "" {
      EscapeDigits(s[1..]);
      assert IsDigit(s[0]);
    }
  }

  lemma EscapedIsEscapeKey(seg: Segment)
    ensures EscapedSegment(seg) == EscapeKey(SegmentText(seg))
  {
    if seg.Index? {
      EscapeDigits(Decimal(seg.index));
    }
  }

  lemma {:induction false} EscapeKeyEmpty(key: string)
    ensures EscapeKey(key) == "" <==> key == ""
  {
  }

  /** Once the first segment is not empty, the path is the plain join. */
  lemma {:induction false} PathIsJoin(stack: seq<Segment>)
    requires stack != [] && SegmentText(stack[0]) != ""
    ensures PathText(stack) == Join(Texts(stack)) && PathText(stack) != ""
    decreases |stack|
  {
    hide EscapeKey, SegmentText, EscapedSegment, Decimal;
    var n := |stack| - 1;
    EscapedIsEscapeKey(stack[n]);
    if n == 0 {
      EscapeKeyEmpty(SegmentText(stack[0]));
      assert PathText(stack[..0]) == "";
      assert "" + EscapedSegment(stack[0]) == EscapedSegment(stack[0]);
    } else {
      PathIsJoin(stack[..n]);
      assert Texts(stack) == Texts(stack[..n]) + [SegmentText(stack[n])];
      JoinSnoc(Texts(stack[..n]), SegmentText(stack[n]));
    }
  }

  lemma SegmentsOfChar(c: char, tail: string)
    ensures var e := if IsPathSpecial(c) then ['\\', c] else [c];
            Segments(e + tail) == PutFirst(c, Segments(tail))
  {
    var e := if IsPathSpecial(c) then ['\\', c] else [c];
    assert (e + tail)[|e|..] == tail;
  }

  /** An escaped segment is read back as itself, in front of whatever segment text follows. */
  lemma {:induction false} SegmentsOfKey(key: string, rest: string)
    ensures var segs := Segments(rest);
            Segments(EscapeKey(key) + rest) == [key + segs[0]] + segs[1..]
  {
    hide Segments;
    var segs := Segments(rest);
    if key == "" {
      assert EscapeKey(key) + rest == rest;
      assert "" + segs[0] == segs[0];
    } else {
      SegmentsOfKey(key[1..], rest);
      var tail := EscapeKey(key[1..]) + rest;
      var e := if IsPathSpecial(key[0]) then ['\\', key[0]] else [key[0]];
      assert EscapeKey(key) + rest == e + tail;
      hide EscapeKey;
      SegmentsOfChar(key[0], tail);
      assert [key[0]] + (key[1..] + segs[0]) == key + segs[0];
    }
  }

  lemma {:induction false} SegmentsOfJoin(ts: seq<string>)
    requires ts != []
    ensures Segments(Join(ts)) == ts
  {
    hide EscapeKey;
    if |ts| == 1 {
      SegmentsOfKey(ts[0], "");
      assert EscapeKey(ts[0]) + "" == EscapeKey(ts[0]);
      assert ts[0] + "" == ts[0];
    } else {
      SegmentsOfJoin(ts[1..]);
      var rest := "." + Join(ts[1..]);
      assert rest[1..] == Join(ts[1..]);
      assert Segments(rest) == [""] + ts[1..];
      SegmentsOfKey(ts[0], rest);
      assert ts[0] + "" == ts[0];
    }
  }

  /** A path never has more segments than the route, and a first segment that is empty is lost. */
  lemma {:induction false} LostFirst(stack: seq<Segment>)
    requires stack != [] && SegmentText(stack[0]) == ""
    ensures PathText(stack) == PathText(stack[1..])
    decreases |stack|
  {
    hide SegmentText;
    var n := |stack| - 1;
    if n == 0 {
      EscapedIsEscapeKey(stack[0]);
      assert EscapeKey("") == "";
      assert stack[..0] == [] && stack[1..] == [];
    } else {
      LostFirst(stack[..n]);
      assert stack[..n][1..] == stack[1..][..n - 1];
      assert stack[1..][n - 1] == stack[n];
    }
  }

  lemma {:induction false} UnjoinShort(stack: seq<Segment>)
    ensures |Unjoin(PathText(stack))| <= |stack|
    decreases |stack|
  {
    if stack != [] {
      if SegmentText(stack[0]) == "" {
        LostFirst(stack);
        UnjoinShort(stack[1..]);
      } else {
        PathIsJoin(stack);
        SegmentsOfJoin(Texts(stack));
      }
    }
  }

  /** The path of a found string gives back the segments of its route exactly when the route is
      empty or its first segment is not an empty key. */
  lemma PathRoundTrip(stack: seq<Segment>)
    ensures Unjoin(PathText(stack)) == Texts(stack) <==> stack == [] || SegmentText(stack[0]) != ""
  {
    hide PathText, Unjoin, SegmentText;
    if stack == [] {
      PathOfNothing();
      assert Texts(stack) == [];
    } else if SegmentText(stack[0]) == "" {
      LostFirst(stack);
      UnjoinShort(stack[1..]);
    } else {
      PathIsJoin(stack);
      SegmentsOfJoin(Texts(stack));
      UnjoinIsSegments(PathText(stack));
    }
  }

  lemma PathOfNothing()
    ensures Unjoin(PathText([])) == []
  {
  }

  lemma UnjoinIsSegments(p: string)
    requires p != ""
    ensures Unjoin(p) == Segments(p)
  {
  }

  // ---------------------------------------------------------------- escaped keys

  lemma {:induction false} EscapeKeyConcat(a: string, b: string)
    ensures EscapeKey(a + b) == EscapeKey(a) + EscapeKey(b)
  {
    if a == "" {
      assert a + b == b;
    } else {
      EscapeKeyConcat(a[1..], b);
      assert (a + b)[1..] == a[1..] + b;
      var x := if IsPathSpecial(a[0]) then ['\\', a[0]] else [a[0]];
      assert EscapeKey(a + b) == x + (EscapeKey(a[1..]) + EscapeKey(b));
    }
  }

  /** A key is escaped character by character: a backslash goes in front of a backslash, a dot, a star
      and a question mark, and of nothing else. */
  lemma EscapeKeyExact(a: string, b: string, c: char)
    ensures EscapeKey("") == "" && EscapeKey([c]) == (if c in "\\.*?" then ['\\', c] else [c])
    ensures EscapeKey(a + b) == EscapeKey(a) + EscapeKey(b)
  {
    EscapeKeyConcat(a, b);
    assert [c][1..] == "";
  }
}
