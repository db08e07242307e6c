/** parse_duration: a " - "-separated list of 12-hour times. */
module Duration {
  import opened Common
  import opened Strptime

  const Separator := " - "

  predicate OccursAt(s: string, sep: string, i: int) {
    0 <= i && i + |sep| <= |s| && s[i..i + |sep|] == sep
  }

  /** str.split(sep): the pieces between the non-overlapping occurrences of sep, found left to right. */
  function Split(s: string, sep: string): (r: seq<string>)
    requires |sep| > 0
    ensures |r| >= 1
    decreases |s|
  {
    if |s| < |sep| then [s]
    else if s[..|sep|] == sep then [""] + Split(s[|sep|..], sep)
    else
      var rest := Split(s[1..], sep);
      [[s[0]] + rest[0]] + rest[1..]
  }

  /** sep.join(parts). */
  function Join(parts: seq<string>, sep: string): string
    requires |parts| >= 1
  {
    if |parts| == 1 then parts[0] else parts[0] + sep + Join(parts[1..], sep)
  }

  /** Putting a character in front of the first piece puts it in front of the joined text. */
  lemma JoinExtendsHead(c: char, parts: seq<string>, sep: string)
    requires |parts| >= 1
    ensures Join([[c] + parts[0]] + parts[1..], sep) == [c] + Join(parts, sep)
  {
    var r := [[c] + parts[0]] + parts[1..];
    assert r[1..] == parts[1..];
  }

  /** Joining the pieces with the separator gives back the split string. */
  lemma {:induction false} JoinSplit(s: string, sep: string)
    requires |sep| > 0
    ensures Join(Split(s, sep), sep) == s
    decreases |s|
  {
    if |s| < |sep| {
    } else if s[..|sep|] == sep {
      var rest := Split(s[|sep|..], sep);
      JoinSplit(s[|sep|..], sep);
      assert Split(s, sep) == [""] + rest;
      assert ([""] + rest)[1..] == rest;
      assert s == sep + s[|sep|..];
    } else {
      var rest := Split(s[1..], sep);
      JoinSplit(s[1..], sep);
      assert Split(s, sep) == [[s[0]] + rest[0]] + rest[1..];
      JoinExtendsHead(s[0], rest, sep);
      assert s == [s[0]] + s[1..];
    }
  }

  lemma {:induction false} SplitHeadIsPrefix(s: string, sep: string)
    requires |sep| > 0
    ensures |Split(s, sep)[0]| <= |s| && Split(s, sep)[0] == s[..|Split(s, sep)[0]|]
    decreases |s|
  {
    if |s| >= |sep| && s[..|sep|] != sep {
      SplitHeadIsPrefix(s[1..], sep);
    }
  }

  /** A piece without the separator, with a character in front, contains it only at its start. */
  lemma ExtendedPieceAvoids(c: char, piece: string, sep: string)
    requires forall i :: !OccursAt(piece, sep, i)
    requires !OccursAt([c] + piece, sep, 0)
    ensures forall i :: !OccursAt([c] + piece, sep, i)
  {
    var head := [c] + piece;
    forall i | OccursAt(head, sep, i) ensures false {
      if i > 0 {
        assert head[i..i + |sep|] == piece[i - 1..i - 1 + |sep|];
        assert OccursAt(piece, sep, i - 1);
      }
    }
  }

  /** No piece of a split contains the separator. */
  lemma {:induction false} SplitPiecesAvoidSeparator(s: string, sep: string)
    requires |sep| > 0
    ensures forall k, i :: 0 <= k < |Split(s, sep)| ==> !OccursAt(Split(s, sep)[k], sep, i)
    decreases |s|
  {
    var r := Split(s, sep);
    if |s| < |sep| {
    } else if s[..|sep|] == sep {
      SplitPiecesAvoidSeparator(s[|sep|..], sep);
      assert forall k :: 1 <= k < |r| ==> r[k] == Split(s[|sep|..], sep)[k - 1];
    } else {
      var rest := Split(s[1..], sep);
      SplitPiecesAvoidSeparator(s[1..], sep);
      SplitHeadIsPrefix(s[1..], sep);
      assert forall k :: 1 <= k < |r| ==> r[k] == rest[k];
      var head := [s[0]] + rest[0];
      assert r[0] == head;
      assert !OccursAt(head, sep, 0) by {
        if |sep| <= |head| {
          assert head[..|sep|] == s[..|sep|];
        }
      }
      ExtendedPieceAvoids(s[0], rest[0], sep);
    }
  }

  /** Splitting at the first occurrence of the separator: the text before it, then the split of the rest. */
  lemma {:induction false} SplitAtFirst(s: string, sep: string, k: int)
    requires |sep| > 0 && OccursAt(s, sep, k)
    requires forall i :: 0 <= i < k ==> !OccursAt(s, sep, i)
    ensures Split(s, sep) == [s[..k]] + Split(s[k + |sep|..], sep)
    decreases k
  {
    if k == 0 {
      assert s[..|sep|] == sep;
    } else {
      assert !OccursAt(s, sep, 0);
      var t := s[1..];
      OccurrencesShift(s, sep, k);
      SplitAtFirst(t, sep, k - 1);
      assert [s[0]] + t[..k - 1] == s[..k];
      assert t[k - 1 + |sep|..] == s[k + |sep|..];
    }
  }

  /** Dropping the first character moves every occurrence one place to the left. */
  lemma OccurrencesShift(s: string, sep: string, k: int)
    requires |sep| > 0 && 0 < k && OccursAt(s, sep, k)
    requires forall i :: 0 <= i < k ==> !OccursAt(s, sep, i)
    ensures OccursAt(s[1..], sep, k - 1)
    ensures forall i :: 0 <= i < k - 1 ==> !OccursAt(s[1..], sep, i)
  {
    var t := s[1..];
    assert t[k - 1..k - 1 + |sep|] == s[k..k + |sep|];
    forall i | 0 <= i < k - 1 ensures !OccursAt(t, sep, i) {
      assert !OccursAt(s, sep, i + 1);
      if i + |sep| <= |t| {
        assert t[i..i + |sep|] == s[i + 1..i + 1 + |sep|];
      }
    }
  }


  /** A string without the separator splits into itself alone. */
  lemma {:induction false} SplitWithoutSeparator(s: string, sep: string)
    requires |sep| > 0
    requires forall i :: !OccursAt(s, sep, i)
    ensures Split(s, sep) == [s]
    decreases |s|
  {
    if |s| >= |sep| {
      assert !OccursAt(s, sep, 0);
      assert |s| >= |sep| && s[..|sep|] != sep by {
        assert s[0..|sep|] == s[..|sep|];
      }
      var t := s[1..];
      forall i ensures !OccursAt(t, sep, i) {
        assert !OccursAt(s, sep, i + 1);
        if 0 <= i && i + |sep| <= |t| {
          assert t[i..i + |sep|] == s[i + 1..i + 1 + |sep|];
        }
      }
      SplitWithoutSeparator(t, sep);
      assert [s[0]] + t == s;
    }
  }

  /** Two fragments that parse give both their times, in order. */
  lemma ParseBoth(a: string, b: string, first: Time, second: Time)
    requires ParseFragment(a) == Some(first) && ParseFragment(b) == Some(second)
    ensures ParseAll([a, b]) == Ok([first, second])
  {
    ParseEachPair(a, b, ParseFragment, first, second);
  }

  lemma ParseEachPair(a: string, b: string, parse: string -> Option<Time>, first: Time, second: Time)
    requires parse(a) == Some(first) && parse(b) == Some(second)
    ensures ParseEach([a, b], parse) == Ok([first, second])
  {
    assert [b][1..] == [] && [second] + [] == [second];
    assert ParseEach([], parse) == Ok([]);
    assert ParseEach([b], parse) == Ok([second]);
    assert [a, b][1..] == [b] && [first] + [second] == [first, second];
  }

  /** Text that splits into exactly two pieces is those pieces around one separator. */
  lemma SplitInTwo(s: string, sep: string)
    requires |sep| > 0 && |Split(s, sep)| == 2
    ensures s == Split(s, sep)[0] + sep + Split(s, sep)[1]
  {
    var bits := Split(s, sep);
    JoinSplit(s, sep);
    assert Join(bits, sep) == bits[0] + sep + Join(bits[1..], sep);
  }

  /** Two space-free times joined by the separator split back into exactly those two. */
  lemma SplitTimeRange(a: string, b: string)
    requires ' ' !in a && ' ' !in b
    ensures Split(a + Separator + b, Separator) == [a, b]
  {
    var s := a + Separator + b;
    forall i | 0 <= i < |a|
      ensures !OccursAt(s, Separator, i)
    {
      assert s[i] == a[i] && a[i] in a;
      if i + 3 <= |s| {
        assert s[i..i + 3][0] == s[i];
      }
    }
    assert s[|a|..|a| + 3] == Separator;
    SplitAtFirst(s, Separator, |a|);
    assert s[..|a|] == a;
    assert s[|a| + 3..] == b;
    forall i | 0 <= i < |b|
      ensures !OccursAt(b, Separator, i)
    {
      assert b[i] in b;
      if i + 3 <= |b| {
        assert b[i..i + 3][0] == b[i];
      }
    }
    SplitWithoutSeparator(b, Separator);
  }

  /**
   * The times `parse` gives the fragments, in order, or the error naming the first fragment it
   * rejects. `parse` stands for the strptime attempts, so that this loop is reasoned about
   * without unfolding them.
   */
  function ParseEach(bits: seq<string>, parse: string -> Option<Time>): (r: Result<seq<Time>>)
    ensures r.Ok? <==> forall i :: 0 <= i < |bits| ==> parse(bits[i]).Some?
    ensures r.Ok? ==> |r.value| == |bits| && forall i :: 0 <= i < |bits| ==> parse(bits[i]) == Some(r.value[i])
    ensures r.Err? ==> exists i :: (0 <= i < |bits| && r.error == UnknownTimestamp(bits[i]) && parse(bits[i]).None?
      && forall j :: 0 <= j < i ==> parse(bits[j]).Some?)
  {
    if |bits| == 0 then Ok([])
    else
      match parse(bits[0])
      case None => Err(UnknownTimestamp(bits[0]))
      case Some(t) =>
        match ParseEach(bits[1..], parse)
        case Err(e) =>
          assert forall i :: 1 <= i < |bits| ==> bits[i] == bits[1..][i - 1];
          Err(e)
        case Ok(ts) =>
          assert forall i :: 1 <= i < |bits| ==> bits[i] == bits[1..][i - 1];
          Ok([t] + ts)
  }

  /** The times of the fragments, in order, or the error naming the first fragment that parses under neither format. */
  function ParseAll(bits: seq<string>): (r: Result<seq<Time>>)
    ensures r.Ok? <==> forall i :: 0 <= i < |bits| ==> ParseFragment(bits[i]).Some?
    ensures r.Ok? ==> |r.value| == |bits| && forall i :: 0 <= i < |bits| ==> ParseFragment(bits[i]) == Some(r.value[i])
    ensures r.Err? ==> exists i :: (0 <= i < |bits| && r.error == UnknownTimestamp(bits[i]) && ParseFragment(bits[i]).None?
      && forall j :: 0 <= j < i ==> ParseFragment(bits[j]).Some?)
  {
    ParseEach(bits, ParseFragment)
  }

  /** The first fragment that parses under neither format is the one the error names. */
  lemma ParseAllFirstFailure(bits: seq<string>, i: int)
    requires 0 <= i < |bits| && ParseFragment(bits[i]).None?
    requires forall j :: 0 <= j < i ==> ParseFragment(bits[j]).Some?
    ensures ParseAll(bits) == Err(UnknownTimestamp(bits[i]))
  {
    var all := ParseAll(bits);
    var f :| 0 <= f < |bits| && all.error == UnknownTimestamp(bits[f]) && ParseFragment(bits[f]).None?
      && forall j :: 0 <= j < f ==> ParseFragment(bits[j]).Some?;
    assert f == i;
  }

  /** When every fragment parses, the result is exactly the list of their times. */
  lemma {:induction false} ParseAllSuccess(bits: seq<string>, out: seq<Time>)
    requires |out| == |bits|
    requires forall j :: 0 <= j < |bits| ==> ParseFragment(bits[j]) == Some(out[j])
    ensures ParseAll(bits) == Ok(out)
  {
    if |bits| > 0 {
      var tail, times := bits[1..], out[1..];
      forall j | 0 <= j < |tail|
        ensures ParseFragment(tail[j]) == Some(times[j])
      {
        assert tail[j] == bits[j + 1] && times[j] == out[j + 1];
      }
      ParseAllSuccess(tail, times);
      assert ParseFragment(bits[0]) == Some(out[0]);
      assert ParseAll(bits) == Ok([out[0]] + times);
      assert out == [out[0]] + times;
    }
  }

  /** The inner loop of parse_duration: the formats in order, stopping at the first that parses. */
  method TryFormats(bit: string) returns (timestamp: Option<Time>)
    ensures timestamp == ParseFragment(bit)
  {
    timestamp := None;
    var k := 0;
    while k < |Formats|
      invariant 0 <= k <= |Formats|
      invariant timestamp.None?
      invariant forall j :: 0 <= j < k ==> StrptimeTime(bit, Formats[j]).None?
    {
      timestamp := StrptimeTime(bit, Formats[k]);
      if timestamp.Some? {
        assert timestamp == ParseFragment(bit);
        return;
      }
      k := k + 1;
    }
  }

  /** One more parsed fragment extends the list of times by its time. */
  lemma AppendParsed(bits: seq<string>, out: seq<Time>, i: int, t: Time)
    requires 0 <= i < |bits| && |out| == i && ParseFragment(bits[i]) == Some(t)
    requires forall j :: 0 <= j < i ==> ParseFragment(bits[j]) == Some(out[j])
    ensures forall j :: 0 <= j < i + 1 ==> ParseFragment(bits[j]) == Some((out + [t])[j])
  {
  }

  /** parse_duration(duration): each fragment tried under "%I:%M%p", then "%I%p". */
  method ParseDuration(duration: string) returns (r: Result<seq<Time>>)
    ensures r == ParseAll(Split(duration, Separator))
  {
    var bits := Split(duration, Separator);
    var out: seq<Time> := [];
    var i := 0;
    while i < |bits|
      invariant 0 <= i <= |bits|
      invariant |out| == i
      invariant forall j :: 0 <= j < i ==> ParseFragment(bits[j]) == Some(out[j])
    {
      var bit := bits[i];
      var timestamp := TryFormats(bit);
      if timestamp.None? {
        ParseAllFirstFailure(bits, i);
        return Err(UnknownTimestamp(bit));
      }
      AppendParsed(bits, out, i, timestamp.value);
      out := out + [timestamp.value];
      i := i + 1;
    }
    ParseAllSuccess(bits, out);
    r := Ok(out);
  }
}
