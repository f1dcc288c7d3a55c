/**
 * The managed half of environment enumeration: a probe loop that asks the
 * native serialiser for the environment in ever larger buffers, and the
 * parser that splits the resulting text into key/value pairs.
 */
module EnvironmentAugments {
  import opened Outcomes
  import opened PalEnvironment

  /** KeyValuePair<string, string>. */
  datatype Pair = Pair(key: string, value: string)

  /** What a consumer of the lazy ParseEnvironmentVariables iterator sees: the
      pairs yielded, in order, and whether enumeration then throws
      IndexOutOfRangeException (from key_value[1]). */
  datatype Parsed = Parsed(pairs: seq<Pair>, failed: bool)

  // ---------------------------------------------------------------------------
  // String.Split on one separator character

  /** The inverse of Split: the parts with the separator between them. */
  function Join(parts: seq<string>, sep: char): string
    requires |parts| >= 1
  {
    if |parts| == 1 then parts[0] else parts[0] + [sep] + Join(parts[1..], sep)
  }

  /** Joining a part that starts with c is c followed by the join with that
      character removed. */
  lemma JoinCons(c: char, first: string, rest: seq<string>, sep: char)
    ensures Join([[c] + first] + rest, sep) == [c] + Join([first] + rest, sep)
  {
    if rest != [] {
      assert ([[c] + first] + rest)[1..] == rest;
      assert ([first] + rest)[1..] == rest;
    }
  }

  /** s.Split(new char[] { sep }): every separator ends a part, empty parts are
      kept, so there is always one part more than there are separators. */
  function Split(s: string, sep: char): (parts: seq<string>)
    ensures |parts| >= 1
    ensures forall k :: 0 <= k < |parts| ==> sep !in parts[k]
    ensures |parts| == 1 <==> sep !in s
    decreases |s|
  {
    if s == [] then [[]]
    else
      var rest := Split(s[1..], sep);
      assert s == [s[0]] + s[1..];
      if s[0] == sep then [[]] + rest
      else [[s[0]] + rest[0]] + rest[1..]
  }

  /** Join undoes Split: no character is lost or added. */
  lemma {:induction false} JoinSplit(s: string, sep: char)
    ensures Join(Split(s, sep), sep) == s
    decreases |s|
  {
    if s != [] {
      var rest := Split(s[1..], sep);
      JoinSplit(s[1..], sep);
      assert s == [s[0]] + s[1..];
      if s[0] == sep {
        var parts := [[]] + rest;
        assert Split(s, sep) == parts;
        assert parts[1..] == rest;
        assert Join(parts, sep) == [] + [sep] + Join(rest, sep);
      } else {
        var parts := [[s[0]] + rest[0]] + rest[1..];
        assert Split(s, sep) == parts;
        JoinCons(s[0], rest[0], rest[1..], sep);
        assert [rest[0]] + rest[1..] == rest;
      }
    }
  }

  /** Split undoes Join when no part holds the separator. */
  lemma {:induction false} SplitJoin(parts: seq<string>, sep: char)
    requires |parts| >= 1
    requires forall k :: 0 <= k < |parts| ==> sep !in parts[k]
    ensures Split(Join(parts, sep), sep) == parts
    decreases |Join(parts, sep)|
  {
    var s := Join(parts, sep);
    if parts[0] == [] {
      if |parts| > 1 {
        assert s == [sep] + Join(parts[1..], sep);
        assert s[1..] == Join(parts[1..], sep);
        SplitJoin(parts[1..], sep);
        assert parts == [[]] + parts[1..];
      }
    } else {
      var c, first := parts[0][0], parts[0][1..];
      assert parts[0] == [c] + first;
      assert c != sep by { assert c in parts[0]; }
      var shorter := [first] + parts[1..];
      assert parts == [[c] + first] + parts[1..];
      JoinCons(c, first, parts[1..], sep);
      assert s == [c] + Join(shorter, sep);
      assert s[1..] == Join(shorter, sep);
      forall k | 0 <= k < |shorter| ensures sep !in shorter[k] {
        if k == 0 {
          assert forall x :: x in first ==> x in parts[0];
        } else {
          assert shorter[k] == parts[k];
        }
      }
      SplitJoin(shorter, sep);
      assert shorter[1..] == parts[1..];
    }
  }

  /** A text that is empty or ends with the separator splits into parts of
      which the last is empty. */
  lemma {:induction false} SplitEndsEmpty(s: string, sep: char)
    ensures var parts := Split(s, sep); s == [] || s[|s| - 1] == sep ==> parts[|parts| - 1] == []
    decreases |s|
  {
    if s != [] && s[|s| - 1] == sep {
      var rest := Split(s[1..], sep);
      if |s| == 1 {
        assert s[1..] == [];
      } else {
        assert s[1..][|s| - 2] == sep;
        SplitEndsEmpty(s[1..], sep);
        assert sep in s[1..];
      }
    }
  }

  // ---------------------------------------------------------------------------
  // String.Trim

  /** The characters Char.IsWhiteSpace accepts: the control characters U+0009
      to U+000D and U+0085, and the space, line and paragraph separators. */
  predicate IsWhiteSpace(c: char) {
    ('\t' <= c <= '\r') || c == ' ' || c == '\U{0085}' || c == '\U{00A0}' || c == '\U{1680}' ||
    ('\U{2000}' <= c <= '\U{200A}') || c == '\U{2028}' || c == '\U{2029}' ||
    c == '\U{202F}' || c == '\U{205F}' || c == '\U{3000}'
  }

  /** No white space at either end. */
  predicate IsTrimmed(s: string) {
    s == [] || (!IsWhiteSpace(s[0]) && !IsWhiteSpace(s[|s| - 1]))
  }

  /** Every character is white space. */
  predicate AllWhiteSpace(s: string) {
    forall k :: 0 <= k < |s| ==> IsWhiteSpace(s[k])
  }

  /** How many white-space characters s starts with. */
  function LeadingWhiteSpace(s: string): (n: nat)
    ensures n <= |s|
    ensures AllWhiteSpace(s[..n])
    ensures n < |s| ==> !IsWhiteSpace(s[n])
  {
    if s != [] && IsWhiteSpace(s[0]) then 1 + LeadingWhiteSpace(s[1..]) else 0
  }

  /** String.Trim(): s without its leading and trailing white space. */
  function Trim(s: string): (t: string)
    ensures IsTrimmed(t)
    ensures |t| <= |s|
  {
    if s == [] then s
    else if IsWhiteSpace(s[0]) then Trim(s[1..])
    else if IsWhiteSpace(s[|s| - 1]) then Trim(s[..|s| - 1])
    else s
  }

  lemma AllWhiteSpaceAppend(a: string, c: char)
    requires AllWhiteSpace(a) && IsWhiteSpace(c)
    ensures AllWhiteSpace(a + [c])
  {
    forall k | 0 <= k < |a| + 1 ensures IsWhiteSpace((a + [c])[k]) {
      if k < |a| {
        assert (a + [c])[k] == a[k];
      }
    }
  }

  /** Trim(s) is the part of s that starts after its leading white space,
      followed in s only by white space. */
  predicate TrimsOnlyWhiteSpace(s: string) {
    var i, t := LeadingWhiteSpace(s), Trim(s);
    i + |t| <= |s| && t == s[i..i + |t|] && AllWhiteSpace(s[i + |t|..])
  }

  lemma TrimLeadingStep(s: string)
    requires s != [] && IsWhiteSpace(s[0])
    requires TrimsOnlyWhiteSpace(s[1..])
    ensures TrimsOnlyWhiteSpace(s)
  {
    var u := s[1..];
    var i, t := LeadingWhiteSpace(u), Trim(u);
    assert Trim(s) == t && LeadingWhiteSpace(s) == i + 1;
    assert u[i..i + |t|] == s[i + 1..i + 1 + |t|];
    assert u[i + |t|..] == s[i + 1 + |t|..];
  }

  lemma TrimTrailingStep(s: string)
    requires s != [] && !IsWhiteSpace(s[0]) && IsWhiteSpace(s[|s| - 1])
    requires TrimsOnlyWhiteSpace(s[..|s| - 1])
    ensures TrimsOnlyWhiteSpace(s)
  {
    var u := s[..|s| - 1];
    var t := Trim(u);
    assert Trim(s) == t;
    assert LeadingWhiteSpace(s) == 0;
    assert LeadingWhiteSpace(u) == 0 by {
      if u != [] {
        assert u[0] == s[0];
      }
    }
    assert u[..|t|] == s[..|t|];
    AllWhiteSpaceAppend(u[|t|..], s[|s| - 1]);
    assert s[|t|..] == u[|t|..] + [s[|s| - 1]];
  }

  /** Trimming keeps the part of s that starts after its leading white space,
      and drops only white space after that part. */
  lemma {:induction false} TrimDropsOnlyWhiteSpace(s: string)
    ensures TrimsOnlyWhiteSpace(s)
  {
    if s == [] {
    } else if IsWhiteSpace(s[0]) {
      TrimDropsOnlyWhiteSpace(s[1..]);
      TrimLeadingStep(s);
    } else if IsWhiteSpace(s[|s| - 1]) {
      TrimDropsOnlyWhiteSpace(s[..|s| - 1]);
      TrimTrailingStep(s);
    }
  }

  /** Trimming leaves a text without outer white space unchanged. */
  lemma TrimTrimmed(s: string)
    requires IsTrimmed(s)
    ensures Trim(s) == s
  {
  }

  // ---------------------------------------------------------------------------
  // Key and value of one segment

  /** The position of the first c in s, or |s| when there is none. */
  function IndexOf(s: string, c: char): (i: nat)
    ensures i <= |s|
    ensures forall k :: 0 <= k < i ==> s[k] != c
    ensures i < |s| ==> s[i] == c
    ensures i == |s| <==> c !in s
  {
    if s == [] then 0
    else if s[0] == c then 0
    else
      assert s == [s[0]] + s[1..];
      1 + IndexOf(s[1..], c)
  }

  /** The text before the first '='. */
  function RawKey(segment: string): string {
    segment[..IndexOf(segment, '=')]
  }

  /** The text after the first '='. */
  function AfterFirst(segment: string): string
    requires '=' in segment
  {
    segment[IndexOf(segment, '=') + 1..]
  }

  /** The text between the first and the second '=' (or the end). */
  function RawValue(segment: string): string
    requires '=' in segment
  {
    RawKey(AfterFirst(segment))
  }

  /** The first part of a split is the text before the first separator, and
      the remaining parts are the split of the text after it. */
  lemma {:induction false} SplitFirst(s: string, sep: char)
    ensures Split(s, sep)[0] == s[..IndexOf(s, sep)]
    ensures sep in s ==> Split(s, sep)[1..] == Split(s[IndexOf(s, sep) + 1..], sep)
    decreases |s|
  {
    if s != [] && s[0] != sep {
      SplitFirst(s[1..], sep);
      assert s[..IndexOf(s, sep)] == [s[0]] + s[1..][..IndexOf(s[1..], sep)];
      if sep in s {
        assert sep in s[1..];
        assert s[IndexOf(s, sep) + 1..] == s[1..][IndexOf(s[1..], sep) + 1..];
      }
    } else if s != [] {
      assert s[1..] == s[IndexOf(s, sep) + 1..];
    }
  }

  /** The pair the code makes of one segment that holds an '=': key_value[0]
      and key_value[1] of its split on '=', trimmed. So the key is the trimmed
      text before the first '=', the value the trimmed text between the first
      '=' and the second one or the end: anything after a second '=' is
      dropped. */
  function SegmentPair(segment: string): (p: Pair)
    requires '=' in segment
    ensures p == Pair(Trim(RawKey(segment)), Trim(RawValue(segment)))
  {
    var keyValue := Split(segment, '=');
    SplitFirst(segment, '=');
    SplitFirst(AfterFirst(segment), '=');
    Pair(Trim(keyValue[0]), Trim(keyValue[1]))
  }

  // ---------------------------------------------------------------------------
  // ParseEnvironmentVariables

  /** The loop over the ';'-separated segments: one pair per segment, in
      order, from the leading segments that hold an '='; key_value[1] throws
      at the first segment without one, and the loop runs to the end when
      there is none. */
  function ParsePairs(segments: seq<string>): (p: Parsed)
    ensures |p.pairs| <= |segments|
    ensures p.failed ==> |p.pairs| < |segments| && '=' !in segments[|p.pairs|]
    ensures !p.failed ==> |p.pairs| == |segments|
    ensures forall k :: 0 <= k < |p.pairs| ==> '=' in segments[k] && p.pairs[k] == SegmentPair(segments[k])
  {
    if segments == [] then Parsed([], false)
    else
      var keyValue := Split(segments[0], '=');
      if |keyValue| < 2 then Parsed([], true)
      else
        var rest := ParsePairs(segments[1..]);
        Parsed([SegmentPair(segments[0])] + rest.pairs, rest.failed)
  }

  /** Parsing throws exactly when some segment has no '='. */
  lemma ParsePairsFails(segments: seq<string>)
    ensures ParsePairs(segments).failed <==> exists k :: 0 <= k < |segments| && '=' !in segments[k]
  {
    var p := ParsePairs(segments);
    if !p.failed {
      forall k | 0 <= k < |segments| ensures '=' in segments[k] {
        assert k < |p.pairs|;
      }
    }
  }

  /** ParseEnvironmentVariables, as written: split on ';', then each segment
      on '=', yielding the trimmed first and second parts. */
  function ParseEnvironmentVariables(stringBuffer: string): (r: Parsed)
    ensures !r.failed ==> |r.pairs| == |Split(stringBuffer, ';')|
    ensures stringBuffer == [] || stringBuffer[|stringBuffer| - 1] == ';' ==> r.failed
  {
    var segments := Split(stringBuffer, ';');
    SplitEndsEmpty(stringBuffer, ';');
    ParsePairs(segments)
  }

  // ---------------------------------------------------------------------------
  // Parsing what the serialiser writes

  /** The serialisation is the variables joined by ';', with an empty part
      after the final ';'. */
  lemma {:induction false} SerializedIsJoin(env: seq<seq<char>>)
    ensures Serialized(env) == Join(env + [[]], ';')
  {
    if env != [] {
      assert (env + [[]])[1..] == env[1..] + [[]];
      SerializedIsJoin(env[1..]);
    }
  }

  /** When no variable holds ';', splitting the serialisation on ';' gives the
      variables back, followed by one empty segment. */
  lemma SplitSerialized(env: seq<seq<char>>)
    requires forall k :: 0 <= k < |env| ==> ';' !in env[k]
    ensures Split(Serialized(env), ';') == env + [[]]
  {
    SerializedIsJoin(env);
    SplitJoin(env + [[]], ';');
  }

  /** The serialisation always ends in an empty segment, which has no '=', so
      parsing it as written always ends by throwing, whatever the
      environment. */
  lemma SerializedParseFails(env: seq<seq<char>>)
    ensures ParseEnvironmentVariables(Serialized(env)).failed
  {
  }

  /** A variable as the environment holds it: KEY=VALUE. */
  function Variable(p: Pair): string {
    p.key + ['='] + p.value
  }

  function Variables(pairs: seq<Pair>): (env: seq<string>)
    ensures |env| == |pairs|
    ensures forall k :: 0 <= k < |pairs| ==> env[k] == Variable(pairs[k])
  {
    seq(|pairs|, k requires 0 <= k < |pairs| => Variable(pairs[k]))
  }

  /** A pair that survives serialising and parsing: its key holds no '=', no
      part holds ';', and neither part has white space at its ends. */
  predicate Representable(p: Pair) {
    '=' !in p.key && ';' !in p.key && ';' !in p.value && IsTrimmed(p.key) && IsTrimmed(p.value)
  }

  /** In KEY=VALUE the first '=' is the one after the key. */
  lemma VariableParts(p: Pair)
    requires '=' !in p.key
    ensures '=' in Variable(p)
    ensures RawKey(Variable(p)) == p.key && AfterFirst(Variable(p)) == p.value
  {
    var v := Variable(p);
    assert v[|p.key|] == '=';
    assert IndexOf(v, '=') == |p.key| by {
      forall k | 0 <= k < |p.key| ensures v[k] != '=' {
        assert v[k] == p.key[k];
      }
    }
    assert v[|p.key| + 1..] == p.value;
  }

  /** A segment the code reads back as the pair it came from, when the value
      holds no '='. */
  lemma SegmentPairOfVariable(p: Pair)
    requires Representable(p) && '=' !in p.value
    ensures '=' in Variable(p) && SegmentPair(Variable(p)) == p
  {
    VariableParts(p);
    assert RawKey(p.value) == p.value;
    TrimTrimmed(p.key);
    TrimTrimmed(p.value);
  }

  /** A value holding '=' comes back cut short at that '=': the pair read
      back is not the pair written. */
  lemma ValueCutAtSecondEquals(p: Pair)
    requires Representable(p) && '=' in p.value
    ensures '=' in Variable(p)
    ensures SegmentPair(Variable(p)) == Pair(p.key, Trim(RawKey(p.value)))
    ensures SegmentPair(Variable(p)) != p
  {
    VariableParts(p);
    TrimTrimmed(p.key);
    assert |RawKey(p.value)| < |p.value|;
  }

  /** The shortest instance: A=b=c reads back with value b. */
  lemma ValueCutExample()
    ensures SegmentPair("A=b=c") == Pair("A", "b")
  {
    var segment := "A=b=c";
    assert IndexOf(segment, '=') == 1;
    assert RawKey(segment) == "A" && AfterFirst(segment) == "b=c";
    assert IndexOf("b=c", '=') == 1;
    assert RawValue(segment) == "b";
    TrimTrimmed("A");
    TrimTrimmed("b");
  }

  /** Parsing as written: the pairs of an environment whose values hold no
      '=' are all yielded, in order, and then enumeration throws. */
  lemma ParseSerializedAsWritten(pairs: seq<Pair>)
    requires forall k :: 0 <= k < |pairs| ==> Representable(pairs[k]) && '=' !in pairs[k].value
    ensures ParseEnvironmentVariables(Serialized(Variables(pairs))) == Parsed(pairs, true)
  {
    var env := Variables(pairs);
    forall k | 0 <= k < |env| ensures ';' !in env[k] && '=' in env[k] && SegmentPair(env[k]) == pairs[k] {
      SegmentPairOfVariable(pairs[k]);
      assert forall c :: c in env[k] ==> c in pairs[k].key || c == '=' || c in pairs[k].value;
    }
    SplitSerialized(env);
    var segments := env + [[]];
    var p := ParsePairs(segments);
    SerializedParseFails(env);
    assert |p.pairs| == |env|;
    assert p.pairs == pairs;
  }

  // ---------------------------------------------------------------------------
  // The parser as evidently intended

  /** segment.Split(sep, 2): the whole segment when it has no separator;
      otherwise a first part free of the separator and a second part that,
      with the separator between them, make up the segment again. */
  function SplitOnce(segment: string, sep: char): (parts: seq<string>)
    ensures sep !in segment ==> parts == [segment]
    ensures sep in segment ==>
              |parts| == 2 && parts[0] + [sep] + parts[1] == segment && sep !in parts[0]
  {
    var i := IndexOf(segment, sep);
    if i == |segment| then [segment]
    else
      assert segment == segment[..i] + [sep] + segment[i + 1..];
      [segment[..i], segment[i + 1..]]
  }

  /** A segment is written in only one way as k, the separator and v with no
      separator in k, and SplitOnce finds that way. */
  lemma SplitOnceUnique(segment: string, sep: char, k: string, v: string)
    requires segment == k + [sep] + v && sep !in k
    ensures SplitOnce(segment, sep) == [k, v]
  {
    assert segment[|k|] == sep;
    var parts := SplitOnce(segment, sep);
    var n := |parts[0]|;
    assert segment[n] == sep;
    assert parts[0] == segment[..n] == k;
    assert parts[1] == segment[n + 1..] == v;
  }

  /** p is the trimmed text on either side of the '=' at position i, and no
      '=' comes before it. */
  ghost predicate PairAtFirstEquals(segment: string, i: int, p: Pair) {
    0 <= i < |segment| && segment[i] == '=' && '=' !in segment[..i] &&
    p == Pair(Trim(segment[..i]), Trim(segment[i + 1..]))
  }

  /** The pair of one segment when only its first '=' separates key from
      value. */
  function SegmentPairFixed(segment: string): (p: Pair)
    requires '=' in segment
    ensures exists i :: PairAtFirstEquals(segment, i, p)
  {
    var keyValue := SplitOnce(segment, '=');
    var i := |keyValue[0]|;
    assert segment[i] == '=' && segment[..i] == keyValue[0] && segment[i + 1..] == keyValue[1];
    assert PairAtFirstEquals(segment, i, Pair(Trim(keyValue[0]), Trim(keyValue[1])));
    Pair(Trim(keyValue[0]), Trim(keyValue[1]))
  }

  /** Any KEY=VALUE with no '=' in KEY reads back as the trimmed KEY and the
      trimmed VALUE, '=' in VALUE included. */
  lemma SegmentPairFixedSplit(key: string, value: string)
    requires '=' !in key
    ensures '=' in key + ['='] + value
    ensures SegmentPairFixed(key + ['='] + value) == Pair(Trim(key), Trim(value))
  {
    var segment := key + ['='] + value;
    assert segment[|key|] == '=';
    SplitOnceUnique(segment, '=', key, value);
  }

  /** The segments that are not empty (StringSplitOptions.RemoveEmptyEntries):
      every non-empty segment as often as it occurs, and nothing else. */
  function NonEmpty(segments: seq<string>): (r: seq<string>)
    ensures multiset(r) == multiset(segments)[[] := 0]
    ensures forall k :: 0 <= k < |r| ==> r[k] != [] && r[k] in segments
    ensures forall k :: 0 <= k < |segments| && segments[k] != [] ==> segments[k] in r
  {
    if segments == [] then []
    else
      assert segments == [segments[0]] + segments[1..];
      if segments[0] == [] then NonEmpty(segments[1..])
      else [segments[0]] + NonEmpty(segments[1..])
  }

  /** Dropping empty segments works piecewise, so the kept segments stay in
      their order. */
  lemma {:induction false} NonEmptyAppend(a: seq<string>, b: seq<string>)
    ensures NonEmpty(a + b) == NonEmpty(a) + NonEmpty(b)
  {
    if a == [] {
      assert a + b == b;
    } else {
      assert (a + b)[1..] == a[1..] + b;
      NonEmptyAppend(a[1..], b);
    }
  }

  /** Dropping the empty segments keeps segments that are all non-empty and
      drops a trailing empty one. */
  lemma {:induction false} NonEmptyTrailing(segments: seq<string>)
    requires forall k :: 0 <= k < |segments| ==> segments[k] != []
    ensures NonEmpty(segments + [[]]) == segments
  {
    if segments == [] {
      var tail: seq<string> := [[]];
      assert tail[1..] == [];
    } else {
      assert (segments + [[]])[1..] == segments[1..] + [[]];
      NonEmptyTrailing(segments[1..]);
    }
  }

  /** The corrected loop: one pair per segment, in order, until a segment
      without '='. */
  function ParsePairsFixed(segments: seq<string>): (p: Parsed)
    ensures |p.pairs| <= |segments|
    ensures p.failed ==> |p.pairs| < |segments| && '=' !in segments[|p.pairs|]
    ensures !p.failed ==> |p.pairs| == |segments|
    ensures forall k :: 0 <= k < |p.pairs| ==> '=' in segments[k] && p.pairs[k] == SegmentPairFixed(segments[k])
  {
    if segments == [] then Parsed([], false)
    else
      var keyValue := SplitOnce(segments[0], '=');
      if |keyValue| < 2 then Parsed([], true)
      else
        var rest := ParsePairsFixed(segments[1..]);
        Parsed([SegmentPairFixed(segments[0])] + rest.pairs, rest.failed)
  }

  /** After dropping empty segments, the corrected loop throws exactly when
      some non-empty segment has no '='. */
  lemma ParsePairsFixedFails(segments: seq<string>)
    ensures ParsePairsFixed(NonEmpty(segments)).failed <==>
            exists k :: 0 <= k < |segments| && segments[k] != [] && '=' !in segments[k]
  {
    var kept := NonEmpty(segments);
    var p := ParsePairsFixed(kept);
    if p.failed {
      var k :| 0 <= k < |segments| && segments[k] == kept[|p.pairs|];
    } else {
      forall k | 0 <= k < |segments| && segments[k] != [] ensures '=' in segments[k] {
        var j :| 0 <= j < |kept| && kept[j] == segments[k];
      }
    }
  }

  /** ParseEnvironmentVariables with empty segments dropped and each segment
      split at its first '=' only. It throws exactly when a non-empty
      ';'-separated segment has no '='; the pairs it yields are those of the
      non-empty segments, in order, one each. */
  function ParseEnvironmentVariablesFixed(stringBuffer: string): (r: Parsed)
    ensures var segments := Split(stringBuffer, ';');
            r.failed <==> exists k :: 0 <= k < |segments| && segments[k] != [] && '=' !in segments[k]
    ensures var kept := NonEmpty(Split(stringBuffer, ';'));
            |r.pairs| <= |kept| && (!r.failed ==> |r.pairs| == |kept|) &&
            forall k :: 0 <= k < |r.pairs| ==> '=' in kept[k] && r.pairs[k] == SegmentPairFixed(kept[k])
  {
    var segments := Split(stringBuffer, ';');
    ParsePairsFixedFails(segments);
    ParsePairsFixed(NonEmpty(segments))
  }

  /** With the fix every segment of the form KEY=VALUE reads back as its
      pair, '=' in the value included. */
  lemma SegmentPairFixedOfVariable(p: Pair)
    requires Representable(p)
    ensures '=' in Variable(p) && SegmentPairFixed(Variable(p)) == p
  {
    SegmentPairFixedSplit(p.key, p.value);
    TrimTrimmed(p.key);
    TrimTrimmed(p.value);
  }

  /** Parsing the segments of pairs written as KEY=VALUE gives the pairs
      back, without an exception. */
  lemma {:induction false} ParsePairsFixedVariables(pairs: seq<Pair>)
    requires forall k :: 0 <= k < |pairs| ==> Representable(pairs[k])
    ensures ParsePairsFixed(Variables(pairs)) == Parsed(pairs, false)
  {
    if pairs != [] {
      var env := Variables(pairs);
      assert env[1..] == Variables(pairs[1..]);
      ParsePairsFixedVariables(pairs[1..]);
      SegmentPairFixedOfVariable(pairs[0]);
      assert pairs == [pairs[0]] + pairs[1..];
    }
  }

  /** The round trip the enumeration evidently intends: an environment of
      representable pairs, serialised and parsed, gives back exactly those
      pairs, in order, and no exception. */
  lemma ParseSerializedFixed(pairs: seq<Pair>)
    requires forall k :: 0 <= k < |pairs| ==> Representable(pairs[k])
    ensures ParseEnvironmentVariablesFixed(Serialized(Variables(pairs))) == Parsed(pairs, false)
  {
    var env := Variables(pairs);
    forall k | 0 <= k < |env| ensures ';' !in env[k] && env[k] != [] {
      assert forall c :: c in env[k] ==> c in pairs[k].key || c == '=' || c in pairs[k].value;
      assert env[k][|pairs[k].key|] == '=';
    }
    SplitSerialized(env);
    NonEmptyTrailing(env);
    ParsePairsFixedVariables(pairs);
  }

  // ---------------------------------------------------------------------------
  // EnumerateEnvironmentVariables

  /** ArrayPool<char>.Shared.Rent: some array of at least the requested length. */
  method Rent(minimumLength: nat) returns (buffer: array<char>)
    ensures fresh(buffer) && buffer.Length >= minimumLength
  {
    buffer := new char[minimumLength];
  }

  /** EnumerateEnvironmentVariables: probes with buffers of 1024, 2048, ...
      characters until the serialiser writes fewer characters than the buffer
      holds, then parses what it wrote. Under an environment smaller than 2^30
      characters the doubled size never leaves the Int32 range. */
  method EnumerateEnvironmentVariables(environ: seq<seq<char>>) returns (result: Parsed)
    requires IsEnviron(environ)
    requires |Serialized(environ)| < 0x4000_0000
    ensures result == ParseEnvironmentVariables(Serialized(environ))
    ensures result.failed
  {
    ghost var text := Serialized(environ);
    var bufferString: string := [];
    var currentBufferSize := 1024;
    while true
      invariant 1024 <= currentBufferSize <= Int32Max
      decreases |text| + 1 - currentBufferSize
    {
      var buffer := Rent(currentBufferSize);
      var charactersWritten := GetEnumerateEnvironmentVariables(environ, buffer, buffer.Length);
      if charactersWritten < buffer.Length {
        bufferString := buffer[..charactersWritten];
        assert bufferString == text;
        break;
      }
      assert currentBufferSize <= |text|;
      currentBufferSize := currentBufferSize * 2;
    }
    result := ParseEnvironmentVariables(bufferString);
    SerializedParseFails(environ);
  }
}
