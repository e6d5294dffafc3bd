/**
 * The text form of a bucket, which the bucket's serde implementation wraps
 * in CBOR: `{`, then `key: entry` and a newline per entry in ascending key
 * order, then `}`; and the parser that reads it back.
 */
module Serialization {
  import opened Params
  import opened Text
  import opened PrimitiveTypes
  import opened Ivfpq

  /** The contents of an `AvlTreeMap<u32, Box<IVListEntry>>`. */
  type Bucket = map<u32, IVListEntry>

  // ---------------------------------------------------------------------------
  // Writing

  /** One line of `to_json`, without its newline: `key: [c0, c1, c2, c3];cluster`. */
  function JsonLine(k: u32, e: IVListEntry): string
  {
    NatToString(k) + ": " + EntryToString(e)
  }

  /** The lines `to_json` writes for `keys`, in that order, without their newlines. */
  function LineTexts(m: Bucket, keys: seq<u32>): (ls: seq<string>)
    requires forall k :: k in keys ==> k in m
    ensures |ls| == |keys|
  {
    if |keys| == 0 then []
    else LineTexts(m, keys[..|keys| - 1]) + [JsonLine(keys[|keys| - 1], m[keys[|keys| - 1]])]
  }

  /** `to_json`: every entry's line and a newline, in ascending key order, collected between braces. */
  function ToJson(m: Bucket): (s: string)
    ensures |s| >= 2 && s[0] == '{' && s[|s| - 1] == '}'
    ensures |m| == 0 ==> s == "{}"
  {
    "{" + Terminated(LineTexts(m, SortedKeys(m.Keys)), '\n') + "}"
  }

  // ---------------------------------------------------------------------------
  // Reading

  /**
   * One line of `from_json`: split on `:`, the first piece parsed as a u32
   * key and the second as an entry; a missing piece or a failed parse
   * panics, `None` here.
   */
  function ParseLine(line: string): (r: Option<(u32, IVListEntry)>)
    ensures r.Some? ==> ':' in line
  {
    var pieces := Split(line, ':');
    assert |pieces| >= 2 ==> line[|pieces[0]|] == ':';
    if |pieces| < 2 then None
    else
      var key := ParseUnsigned(pieces[0], U32_MAX);
      var entry := EntryFromStr(pieces[1]);
      if key.None? || entry.None? then None else Some((key.value as u32, entry.value))
  }

  /** The map the lines build, inserted in order (a later line overwrites an earlier key). */
  function ParseLines(lines: seq<string>): (r: Option<Bucket>)
    ensures r.Some? ==> |r.value| <= |lines|
  {
    if |lines| == 0 then Some(map[])
    else
      var front := ParseLines(lines[..|lines| - 1]);
      var last := ParseLine(lines[|lines| - 1]);
      if front.None? || last.None? then None
      else Some(front.value[last.value.0 := last.value.1])
  }

  /**
   * `from_json` as written: remove the first character and then the last
   * character twice (a panic when the text has fewer than three), split the
   * rest on newlines and parse every line.
   */
  function ParseJsonAsWritten(source: string): (r: Option<Bucket>)
    ensures |source| < 3 ==> r.None?
  {
    if |source| < 3 then None
    else ParseLines(Split(source[1..|source| - 2], '\n'))
  }

  /** `from_json` as evidently intended: the text of the empty bucket reads back as the empty bucket. */
  function ParseJson(source: string): (r: Option<Bucket>)
    ensures source == "{}" ==> r == Some(map[])
    ensures source != "{}" ==> r == ParseJsonAsWritten(source)
  {
    if source == "{}" then Some(map[]) else ParseJsonAsWritten(source)
  }

  lemma {:induction false} ParseLinesNoneExtends(lines: seq<string>, n: nat)
    requires n <= |lines|
    requires ParseLines(lines[..n]).None?
    ensures ParseLines(lines).None?
    decreases |lines| - n
  {
    if n < |lines| {
      assert lines[..n + 1][..n] == lines[..n];
      ParseLinesNoneExtends(lines, n + 1);
    } else {
      assert lines[..n] == lines;
    }
  }

  /** `from_json` with the empty-bucket case: the lines are parsed into a map one by one. */
  method FromJson(source: string) returns (r: Option<Bucket>)
    ensures r == ParseJson(source)
  {
    if source == "{}" {
      return Some(map[]);
    }
    if |source| < 3 {
      return None;
    }
    r := InsertLines(Split(source[1..|source| - 2], '\n'));
  }

  /** The loop of `from_json`: parse each line and insert it, stopping at the first line that fails. */
  method InsertLines(lines: seq<string>) returns (r: Option<Bucket>)
    ensures r == ParseLines(lines)
  {
    var avl: Bucket := map[];
    for i := 0 to |lines|
      invariant ParseLines(lines[..i]) == Some(avl)
    {
      assert lines[..i + 1][..i] == lines[..i];
      var parsed := ParseLine(lines[i]);
      if parsed.None? {
        ParseLinesNoneExtends(lines, i + 1);
        return None;
      }
      avl := avl[parsed.value.0 := parsed.value.1];
    }
    assert lines[..|lines|] == lines;
    return Some(avl);
  }

  // ---------------------------------------------------------------------------
  // Properties

  /** Two lines with the same key leave one entry, holding the later value. */
  lemma LaterLineWins(first: string, second: string, k: u32, e1: IVListEntry, e2: IVListEntry)
    requires ParseLine(first) == Some((k, e1)) && ParseLine(second) == Some((k, e2))
    ensures ParseLines([first, second]) == Some(map[k := e2])
  {
    assert [first, second][..1] == [first];
    assert [first][..0] == [];
    assert ParseLines([first]) == Some(map[k := e1]);
    assert map[k := e1][k := e2] == map[k := e2];
  }

  /** A printed entry holds no character other than digits, `[`, `]`, `,`, spaces and `;`. */
  lemma EntryToStringIsPlain(e: IVListEntry, c: char)
    requires !IsDigit(c) && c != ',' && c != ' ' && c != '[' && c != ']' && c != ';'
    ensures c !in EntryToString(e)
  {
    DebugListIsPlain(e.pqCode, c);
    NatToStringHasOnlyDigits(e.cluster, c);
  }

  /** A line of `to_json` reads back as its key and entry. */
  lemma JsonLineRoundTrip(k: u32, e: IVListEntry)
    ensures ParseLine(JsonLine(k, e)) == Some((k, e))
  {
    var key := NatToString(k);
    var rest := " " + EntryToString(e);
    assert JsonLine(k, e) == Join([key, rest], ':');
    NatToStringHasOnlyDigits(k, ':');
    EntryToStringIsPlain(e, ':');
    SplitJoin([key, rest], ':');
    NatToStringParses(k, U32_MAX);
    EntryRoundTrip(e, " ");
  }

  /** A line of `to_json` holds no newline. */
  lemma JsonLineHasNoNewline(k: u32, e: IVListEntry)
    ensures '\n' !in JsonLine(k, e)
  {
    NatToStringHasOnlyDigits(k, '\n');
    EntryToStringIsPlain(e, '\n');
  }

  /** The entries under `keys`, inserted in order. */
  function EntriesOf(m: Bucket, keys: seq<u32>): (r: Bucket)
    requires forall k :: k in keys ==> k in m
    ensures forall k :: k in r <==> k in keys
    ensures forall k :: k in r ==> r[k] == m[k]
  {
    if |keys| == 0 then map[]
    else EntriesOf(m, keys[..|keys| - 1])[keys[|keys| - 1] := m[keys[|keys| - 1]]]
  }

  /** Parsing the lines `to_json` writes for `keys` inserts the entries under `keys`. */
  lemma {:induction false} ParseLineTexts(m: Bucket, keys: seq<u32>)
    requires forall k :: k in keys ==> k in m
    ensures ParseLines(LineTexts(m, keys)) == Some(EntriesOf(m, keys))
    decreases |keys|
  {
    if |keys| > 0 {
      var front := keys[..|keys| - 1];
      ParseLineTexts(m, front);
      JsonLineRoundTrip(keys[|keys| - 1], m[keys[|keys| - 1]]);
    }
  }

  /**
   * Between the braces of collected newline-free lines, less the last
   * newline, splitting on newlines gives the lines back.
   */
  lemma SplitBracedLines(lines: seq<string>, source: string)
    requires |lines| >= 1
    requires forall l :: l in lines ==> '\n' !in l
    requires source == "{" + Terminated(lines, '\n') + "}"
    ensures |source| >= 3 && Split(source[1..|source| - 2], '\n') == lines
  {
    var body := Join(lines, '\n');
    TerminatedJoin(lines, '\n');
    BracedBody(body);
    SplitJoin(lines, '\n');
  }

  /** Dropping the opening brace, the closing brace and the newline before it leaves the body. */
  lemma BracedBody(body: string)
    ensures var source := "{" + (body + "\n") + "}";
      |source| >= 3 && source[1..|source| - 2] == body
  {
    var source := "{" + (body + "\n") + "}";
    assert forall i :: 0 <= i < |body| ==> source[1..|source| - 2][i] == body[i];
  }

  /**
   * `from_json` as written reads back the text `to_json` writes for every
   * bucket that is not empty.
   */
  lemma NonEmptyRoundTrip(m: Bucket)
    requires |m| > 0
    ensures ParseJsonAsWritten(ToJson(m)) == Some(m)
  {
    BodySplitsIntoLines(m);
    LinesParseToBucket(m);
    ReadBack(ToJson(m), LineTexts(m, SortedKeys(m.Keys)), m);
  }

  /** Text whose body splits into lines that parse to `b` is read back as `b`. */
  lemma ReadBack(source: string, lines: seq<string>, b: Bucket)
    requires |source| >= 3 && Split(source[1..|source| - 2], '\n') == lines
    requires ParseLines(lines) == Some(b)
    ensures ParseJsonAsWritten(source) == Some(b)
  {
  }

  /** Splitting the text between the braces on newlines gives back the lines `to_json` wrote. */
  lemma BodySplitsIntoLines(m: Bucket)
    requires |m| > 0
    ensures var source := ToJson(m);
      |source| >= 3 && Split(source[1..|source| - 2], '\n') == LineTexts(m, SortedKeys(m.Keys))
  {
    WrittenLines(m);
    SplitBracedLines(LineTexts(m, SortedKeys(m.Keys)), ToJson(m));
  }

  /** A non-empty bucket writes at least one line, and none of its lines holds a newline. */
  lemma WrittenLines(m: Bucket)
    requires |m| > 0
    ensures var lines := LineTexts(m, SortedKeys(m.Keys));
      |lines| >= 1 && forall l :: l in lines ==> '\n' !in l
  {
    var keys := SortedKeys(m.Keys);
    assert |keys| >= 1;
    LineTextsHaveNoNewline(m, keys);
  }

  /** Parsing every line `to_json` wrote rebuilds the bucket. */
  lemma LinesParseToBucket(m: Bucket)
    ensures ParseLines(LineTexts(m, SortedKeys(m.Keys))) == Some(m)
  {
    var keys := SortedKeys(m.Keys);
    ParseLineTexts(m, keys);
    EntriesOfAllKeys(m, keys);
  }

  lemma {:induction false} LineTextsHaveNoNewline(m: Bucket, keys: seq<u32>)
    requires forall k :: k in keys ==> k in m
    ensures forall l :: l in LineTexts(m, keys) ==> '\n' !in l
    decreases |keys|
  {
    if |keys| > 0 {
      LineTextsHaveNoNewline(m, keys[..|keys| - 1]);
      JsonLineHasNoNewline(keys[|keys| - 1], m[keys[|keys| - 1]]);
    }
  }

  lemma EntriesOfAllKeys(m: Bucket, keys: seq<u32>)
    requires forall k :: k in keys <==> k in m
    ensures EntriesOf(m, keys) == m
  {
    var r := EntriesOf(m, keys);
    assert r.Keys == m.Keys;
    assert forall k :: k in r ==> r[k] == m[k];
  }

  /** The empty bucket is written as `{}`, which `from_json` as written cannot read. */
  lemma EmptyBucketDoesNotRoundTrip()
    ensures ToJson(map[]) == "{}"
    ensures ParseJsonAsWritten(ToJson(map[])).None?
  {
    var empty: Bucket := map[];
    assert SortedKeys(empty.Keys) == [];
  }

  /** With the empty case handled, reading undoes writing for every bucket. */
  lemma JsonRoundTrip(m: Bucket)
    ensures ParseJson(ToJson(m)) == Some(m)
  {
    if |m| == 0 {
      assert m == map[];
      EmptyBucketDoesNotRoundTrip();
    } else {
      NonEmptyRoundTrip(m);
      assert ToJson(m) != "{}" by {
        var keys := SortedKeys(m.Keys);
        assert |keys| > 0;
        assert |Terminated(LineTexts(m, keys), '\n')| > 0;
      }
    }
  }

  /** The repository's own check: writing what was read back from a written bucket gives the same text. */
  lemma WriteReadWrite(m: Bucket)
    ensures ParseJson(ToJson(m)).Some? && ToJson(ParseJson(ToJson(m)).value) == ToJson(m)
  {
    JsonRoundTrip(m);
  }
}
