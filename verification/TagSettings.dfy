/** Struct tags: the parser that splits a tag at its separator, joins pieces whose separator was escaped
    by a backslash, and collects KEY:value settings. */
module TagSettings {
  import opened Wrappers

  /** What the parser leaves to the Unicode tables. */
  datatype Charset = Charset(upper: char -> char, space: char -> bool)

  type Settings = map<string, string>

  type ParseResult = Result<Settings>

  /** The pieces between separators; one more than there are separators. */
  function Split(s: string, sep: char): (parts: seq<string>)
    ensures |parts| >= 1
  {
    if s == [] then [[]]
    else
      var parts := Split(s[1..], sep);
      if s[0] == sep then [[]] + parts else [[s[0]] + parts[0]] + parts[1..]
  }

  function Join(parts: seq<string>, sep: char): string
    requires |parts| >= 1
  {
    if |parts| == 1 then parts[0] else parts[0] + [sep] + Join(parts[1..], sep)
  }

  function ToUpper(s: string, cs: Charset): (r: string)
    ensures |r| == |s|
    ensures forall i :: 0 <= i < |s| ==> r[i] == cs.upper(s[i])
  {
    seq(|s|, i requires 0 <= i < |s| => cs.upper(s[i]))
  }

  function TrimSpace(s: string, cs: Charset): string {
    if s == [] then []
    else if cs.space(s[0]) then TrimSpace(s[1..], cs)
    else if cs.space(s[|s|-1]) then TrimSpace(s[..|s|-1], cs)
    else s
  }

  function Key(raw: string, cs: Charset): string {
    TrimSpace(ToUpper(raw, cs), cs)
  }

  predicate Escaped(s: string) {
    s != [] && s[|s|-1] == '\\'
  }

  /** Joins pieces from the front while the text ends in a backslash, which makes room for the separator.
      Running out of pieces is an index out of range in the source. */
  function Merge(cur: string, rest: seq<string>, sep: char): (r: Option<(string, seq<string>)>)
    ensures r.Some? ==> |r.value.1| <= |rest|
    decreases rest
  {
    if !Escaped(cur) then Some((cur, rest))
    else if rest == [] then None
    else Merge(cur[..|cur|-1] + [sep] + rest[0], rest[1..], sep)
  }

  /** The texts the parser looks at, one after the other. */
  function Chunks(names: seq<string>, sep: char): Option<seq<string>>
    decreases |names|, 0
  {
    if names == [] then Some([]) else ChunksFrom(Merge(names[0], names[1..], sep), sep)
  }

  function ChunksFrom(merged: Option<(string, seq<string>)>, sep: char): Option<seq<string>>
    decreases if merged.Some? then |merged.value.1| else 0, 1
  {
    match merged
    case None => None
    case Some((chunk, rest)) =>
      match Chunks(rest, sep)
      case None => None
      case Some(chunks) => Some([chunk] + chunks)
  }

  /** One text KEY or KEY:value; what follows the first colon is the value, colons included. */
  function Assign(settings: Settings, chunk: string, cs: Charset): Settings {
    var values := Split(chunk, ':');
    var k := Key(values[0], cs);
    if |values| >= 2 then settings[k := Join(values[1..], ':')]
    else if k != [] then settings[k := k]
    else settings
  }

  function AssignAll(settings: Settings, chunks: seq<string>, cs: Charset): Settings
    decreases chunks
  {
    if chunks == [] then settings else AssignAll(Assign(settings, chunks[0], cs), chunks[1..], cs)
  }

  function Parse(str: string, sep: char, cs: Charset): ParseResult {
    ParseFrom(map[], Split(str, sep), sep, cs)
  }

  function ParseFrom(settings: Settings, names: seq<string>, sep: char, cs: Charset): ParseResult {
    match Chunks(names, sep)
    case None => Panic
    case Some(chunks) => Ok(AssignAll(settings, chunks, cs))
  }

  lemma ParseFromStep(settings: Settings, names: seq<string>, sep: char, cs: Charset)
    requires names != []
    ensures ParseFrom(settings, names, sep, cs) ==
            match Merge(names[0], names[1..], sep)
            case None => Panic
            case Some((chunk, rest)) => ParseFrom(Assign(settings, chunk, cs), rest, sep, cs)
  {
    var merged := Merge(names[0], names[1..], sep);
    assert Chunks(names, sep) == ChunksFrom(merged, sep);
    if merged.Some? {
      var chunks := Chunks(merged.value.1, sep);
      if chunks.Some? {
        assert ([merged.value.0] + chunks.value)[1..] == chunks.value;
      }
    }
  }

  /** Rewrites the list of pieces in place: piece j takes in the pieces behind it while it ends in a
      backslash, and they are blanked. Stops at the last piece taken in, or fails past the end. */
  method TakeInEscaped(names: array<string>, j: nat, sep: char) returns (i: nat, ok: bool)
    requires j < names.Length
    modifies names
    ensures ok == Merge(old(names[j]), old(names[j+1..]), sep).Some?
    ensures ok ==> j <= i < names.Length
    ensures ok ==> Merge(old(names[j]), old(names[j+1..]), sep) == Some((names[j], names[i+1..]))
    ensures ok ==> names[i+1..] == old(names[i+1..])
    ensures names[..j] == old(names[..j]) && forall k :: j < k <= i && ok ==> names[k] == []
  {
    i, ok := j, true;
    if |names[j]| > 0 {
      while names[j][|names[j]|-1] == '\\'
        invariant j <= i < names.Length
        invariant names[j] != []
        invariant names[i+1..] == old(names[i+1..])
        invariant names[..j] == old(names[..j]) && forall k :: j < k <= i ==> names[k] == []
        invariant Merge(names[j], names[i+1..], sep) == Merge(old(names[j]), old(names[j+1..]), sep)
        decreases names.Length - i
      {
        i := i + 1;
        if i == names.Length {
          return i, false;
        }
        assert names[i..][1..] == names[i+1..];
        ghost var rest := names[i+1..];
        names[j] := names[j][..|names[j]|-1] + [sep] + names[i];
        names[i] := [];
        assert names[i+1..] == rest;
      }
    }
  }

  /** One setting: the text at piece i and the pieces it takes in. */
  method NextSetting(names: array<string>, i: nat, sep: char, cs: Charset, settings: Settings)
    returns (next: nat, after: Settings, ok: bool)
    requires i < names.Length
    modifies names
    ensures ok ==> i < next <= names.Length
    ensures ParseFrom(settings, old(names[i..]), sep, cs)
            == if ok then ParseFrom(after, names[next..], sep, cs) else Panic
  {
    ghost var pieces := names[i..];
    ParseFromStep(settings, pieces, sep, cs);
    assert pieces[1..] == names[i+1..];
    var last;
    last, ok := TakeInEscaped(names, i, sep);
    if !ok {
      return i, settings, false;
    }
    next, after := last + 1, Assign(settings, names[i], cs);
  }

  /** Walks over the pieces, joining where a separator was escaped, and assigns one setting per text. */
  method ParseTagSetting(str: string, sep: char, cs: Charset) returns (r: ParseResult)
    ensures r == Parse(str, sep, cs)
  {
    var settings: Settings := map[];
    var parts := Split(str, sep);
    var names := new string[|parts|](i requires 0 <= i < |parts| => parts[i]);
    var i := 0;
    assert names[0..] == parts;
    ghost var goal := ParseFrom(settings, parts, sep, cs);
    while i < names.Length
      invariant 0 <= i <= names.Length
      invariant goal == ParseFrom(settings, names[i..], sep, cs)
    {
      var ok;
      i, settings, ok := NextSetting(names, i, sep, cs, settings);
      if !ok {
        return Panic;
      }
    }
    assert names[i..] == [];
    r := Ok(settings);
  }

  // ----- When the parser panics -----

  lemma {:induction false} SplitLast(s: string, sep: char)
    requires sep != '\\'
    ensures var parts := Split(s, sep); Escaped(parts[|parts|-1]) <==> Escaped(s)
  {
    if |Split(s, sep)| == 1 {
      SplitWhole(s, sep);
    } else {
      SplitLast(s[1..], sep);
      LastPart(s, sep);
    }
  }

  /** With more than one piece, the last one is that of the rest. */
  lemma LastPart(s: string, sep: char)
    requires |Split(s, sep)| > 1
    ensures var parts, more := Split(s, sep), Split(s[1..], sep); parts[|parts|-1] == more[|more|-1]
    ensures |s| == 1 ==> s[0] == sep
  {
    var more := Split(s[1..], sep);
    if s[0] == sep {
      assert Split(s, sep) == [[]] + more;
    } else {
      assert Split(s, sep) == [[s[0]] + more[0]] + more[1..];
      assert |more| > 1;
    }
  }

  lemma {:induction false} SplitWhole(s: string, sep: char)
    requires |Split(s, sep)| == 1
    ensures Split(s, sep) == [s]
  {
    if s != [] {
      SplitWhole(s[1..], sep);
      assert [s[0]] + s[1..] == s;
    }
  }

  lemma {:induction false} MergeLast(cur: string, rest: seq<string>, sep: char)
    requires sep != '\\'
    ensures match Merge(cur, rest, sep)
            case None => if rest == [] then Escaped(cur) else Escaped(rest[|rest|-1])
            case Some((chunk, rest')) =>
              if rest' != [] then rest != [] && rest'[|rest'|-1] == rest[|rest|-1]
              else if rest == [] then !Escaped(cur) else !Escaped(rest[|rest|-1])
    decreases rest
  {
    if Escaped(cur) && rest != [] {
      var next := cur[..|cur|-1] + [sep] + rest[0];
      assert Escaped(next) <==> Escaped(rest[0]);
      MergeLast(next, rest[1..], sep);
    }
  }

  lemma {:induction false} ChunksLast(names: seq<string>, sep: char)
    requires sep != '\\' && names != []
    ensures Chunks(names, sep).None? <==> Escaped(names[|names|-1])
    decreases |names|
  {
    MergeLast(names[0], names[1..], sep);
    match Merge(names[0], names[1..], sep)
    case None =>
    case Some((chunk, rest)) =>
      if rest == [] {
        assert Chunks(rest, sep) == Some([]);
      } else {
        ChunksLast(rest, sep);
      }
  }

  /** The parser runs off the end of the pieces exactly when the tag ends in a backslash. */
  lemma PanicIff(str: string, sep: char, cs: Charset)
    requires sep != '\\'
    ensures Parse(str, sep, cs) == Panic <==> Escaped(str)
  {
    SplitLast(str, sep);
    ChunksLast(Split(str, sep), sep);
  }

  // ----- Printing and parsing back -----

  /** A setting as it is written: KEY:value, or the key alone. */
  datatype Entry = Entry(key: string, value: Option<string>)

  /** A backslash before every separator of a value. */
  function Escape(v: string, sep: char): string {
    if v == [] then [] else (if v[0] == sep then ['\\', sep] else [v[0]]) + Escape(v[1..], sep)
  }

  function PrintEntry(e: Entry, sep: char): string {
    match e.value
    case None => e.key
    case Some(v) => e.key + [':'] + Escape(v, sep)
  }

  function Print(entries: seq<Entry>, sep: char): string {
    if entries == [] then []
    else if |entries| == 1 then PrintEntry(entries[0], sep)
    else PrintEntry(entries[0], sep) + [sep] + Print(entries[1..], sep)
  }

  function Text(e: Entry): string {
    match e.value
    case None => e.key
    case Some(v) => e.key + [':'] + v
  }

  /** What the text of an entry ends with. */
  function Tail(e: Entry): string {
    match e.value
    case None => e.key
    case Some(v) => v
  }

  /** What one entry does to the settings: its key, upper-cased and trimmed, gets its value, or itself if there is
      none; an empty key without a value sets nothing. */
  function Set(settings: Settings, e: Entry, cs: Charset): Settings {
    var k := Key(e.key, cs);
    match e.value
    case None => if k == [] then settings else settings[k := k]
    case Some(v) => settings[k := v]
  }

  /** The settings the entries stand for; a later entry overrides an earlier one with its key. */
  function Collect(settings: Settings, entries: seq<Entry>, cs: Charset): Settings
    decreases entries
  {
    if entries == [] then settings else Collect(Set(settings, entries[0], cs), entries[1..], cs)
  }

  /** Keys that survive printing: free of ':' and of the separator, in any case and with any blanks around them. */
  predicate FreeKeys(entries: seq<Entry>, sep: char) {
    forall i :: 0 <= i < |entries| ==> ':' !in entries[i].key && sep !in entries[i].key
  }

  predicate NoColons(entries: seq<Entry>) {
    forall i :: 0 <= i < |entries| ==> ':' !in entries[i].key
  }

  /** What the printed entries look like to the parser: one that ends in a backslash swallows the entry behind it. */
  function Swallow(entries: seq<Entry>, sep: char): Option<seq<Entry>>
    decreases |entries|
  {
    if entries == [] then Some([])
    else if Escaped(Tail(entries[0])) then
      if |entries| == 1 then None
      else Swallow([Swallowing(entries[0], entries[1], sep)] + entries[2..], sep)
    else match Swallow(entries[1..], sep)
      case None => None
      case Some(others) => Some([entries[0]] + others)
  }

  function Swallowing(e: Entry, next: Entry, sep: char): Entry
    requires Escaped(Tail(e))
  {
    match e.value
    case None => Entry(e.key[..|e.key|-1] + [sep] + next.key, next.value)
    case Some(v) => Entry(e.key, Some(v[..|v|-1] + [sep] + Text(next)))
  }

  /** The text swallows the next one in place of its backslash. */
  lemma SwallowingText(e: Entry, next: Entry, sep: char)
    requires Escaped(Tail(e))
    ensures Escaped(Text(e)) && Text(Swallowing(e, next, sep)) == Text(e)[..|Text(e)|-1] + [sep] + Text(next)
  {
    var front := Text(e)[..|Text(e)|-1];
    match e.value
    case None =>
      if next.value.Some? {
        var w := next.value.value;
        assert (front + [sep] + next.key) + [':'] + w == front + [sep] + (next.key + [':'] + w);
      }
    case Some(v) =>
      assert Text(e) == e.key + [':'] + v[..|v|-1] + ['\\'];
      assert front == e.key + [':'] + v[..|v|-1];
      assert e.key + [':'] + (v[..|v|-1] + [sep] + Text(next)) == front + [sep] + Text(next);
  }

  lemma EscapedText(e: Entry)
    ensures Escaped(Text(e)) <==> Escaped(Tail(e))
  {
  }

  lemma {:induction false} SplitFree(s: string, t: string, sep: char)
    requires sep !in s
    ensures Split(s + t, sep) == [s + Split(t, sep)[0]] + Split(t, sep)[1..]
  {
    if s == [] {
      assert s + t == t && s + Split(t, sep)[0] == Split(t, sep)[0];
    } else {
      assert (s + t)[1..] == s[1..] + t;
      SplitFree(s[1..], t, sep);
      assert [s[0]] + (s[1..] + Split(t, sep)[0]) == s + Split(t, sep)[0];
    }
  }

  lemma {:induction false} SplitConcat(s: string, t: string, sep: char)
    ensures Split(s + [sep] + t, sep) == Split(s, sep) + Split(t, sep)
  {
    var all := s + [sep] + t;
    if s == [] {
      assert all == [sep] + t && all[1..] == t;
    } else {
      assert all[1..] == s[1..] + [sep] + t;
      SplitConcat(s[1..], t, sep);
    }
  }

  lemma {:induction false} JoinSplit(s: string, sep: char)
    ensures Join(Split(s, sep), sep) == s
  {
    if s != [] {
      JoinSplit(s[1..], sep);
      var parts := Split(s[1..], sep);
      if s[0] == sep {
        assert ([[]] + parts)[1..] == parts;
        assert [] + [sep] + s[1..] == s;
      } else if |parts| == 1 {
        assert [s[0]] + s[1..] == s;
      } else {
        assert ([[s[0]] + parts[0]] + parts[1..])[1..] == parts[1..];
        assert ([s[0]] + parts[0]) + [sep] + Join(parts[1..], sep) == [s[0]] + s[1..] == s;
      }
    }
  }

  /** Merging undoes the escaping of a value, whatever comes before it and behind it. */
  lemma {:induction false} MergeUnescapes(p: string, v: string, rest: seq<string>, sep: char)
    requires sep != '\\'
    ensures var q := Split(Escape(v, sep), sep);
            Merge(p + q[0], q[1..] + rest, sep) == Merge(p + v, rest, sep)
    decreases v
  {
    if v == [] {
      assert Split([], sep)[1..] + rest == rest;
    } else {
      var p' := p + [v[0]];
      MergeUnescapes(p', v[1..], rest, sep);
      assert p' + v[1..] == p + v;
      if v[0] == sep {
        SeparatorIsTakenIn(p, v, rest, sep);
      } else {
        PlainIsTakenIn(p, v, rest, sep);
      }
    }
  }

  /** An escaped separator in front of a value: the piece before it ends in a backslash, and merging goes on. */
  lemma SeparatorIsTakenIn(p: string, v: string, rest: seq<string>, sep: char)
    requires sep != '\\' && v != [] && v[0] == sep
    ensures var q, more := Split(Escape(v, sep), sep), Split(Escape(v[1..], sep), sep);
            Merge(p + q[0], q[1..] + rest, sep) == Merge(p + [v[0]] + more[0], more[1..] + rest, sep)
  {
    EscapedSeparator(v, sep);
    MergeTakesIn(p, Split(Escape(v[1..], sep), sep), rest, sep);
  }

  /** Any other character in front of a value stays in its piece. */
  lemma PlainIsTakenIn(p: string, v: string, rest: seq<string>, sep: char)
    requires sep != '\\' && v != [] && v[0] != sep
    ensures var q, more := Split(Escape(v, sep), sep), Split(Escape(v[1..], sep), sep);
            Merge(p + q[0], q[1..] + rest, sep) == Merge(p + [v[0]] + more[0], more[1..] + rest, sep)
  {
    var more := Split(Escape(v[1..], sep), sep);
    PlainFront(v[0], Escape(v[1..], sep), sep);
    assert Escape(v, sep) == [v[0]] + Escape(v[1..], sep);
    assert p + ([v[0]] + more[0]) == p + [v[0]] + more[0];
  }

  lemma PlainFront(c: char, t: string, sep: char)
    requires c != sep
    ensures var q, more := Split([c] + t, sep), Split(t, sep); q[0] == [c] + more[0] && q[1..] == more[1..]
  {
    assert ([c] + t)[1..] == t;
  }

  lemma MergeTakesIn(p: string, more: seq<string>, rest: seq<string>, sep: char)
    requires more != []
    ensures Merge(p + ['\\'], more + rest, sep) == Merge(p + [sep] + more[0], more[1..] + rest, sep)
  {
    var cur := p + ['\\'];
    assert cur[..|cur|-1] == p && (more + rest)[1..] == more[1..] + rest;
  }

  lemma EscapedSeparator(v: string, sep: char)
    requires sep != '\\' && v != [] && v[0] == sep
    ensures var q := Split(Escape(v, sep), sep); q[0] == ['\\'] && q[1..] == Split(Escape(v[1..], sep), sep)
  {
    assert Escape(v, sep) == ['\\'] + ([sep] + Escape(v[1..], sep));
    PlainFront('\\', [sep] + Escape(v[1..], sep), sep);
    assert ([sep] + Escape(v[1..], sep))[1..] == Escape(v[1..], sep);
  }

  /** The printed entries, cut at the separators. */
  function Pieces(entries: seq<Entry>, sep: char): seq<string> {
    if entries == [] then [] else Split(PrintEntry(entries[0], sep), sep) + Pieces(entries[1..], sep)
  }

  lemma {:induction false} SplitPrint(entries: seq<Entry>, sep: char)
    requires entries != []
    ensures Split(Print(entries, sep), sep) == Pieces(entries, sep)
  {
    if |entries| == 1 {
      assert Pieces(entries[1..], sep) == [];
      assert Pieces(entries, sep) == Split(PrintEntry(entries[0], sep), sep) + [];
    } else {
      SplitConcat(PrintEntry(entries[0], sep), Print(entries[1..], sep), sep);
      SplitPrint(entries[1..], sep);
    }
  }

  /** Merging at the start of an entry continues with the entry's plain text. */
  lemma MergeEntry(p: string, e: Entry, rest: seq<string>, sep: char)
    requires sep != '\\' && sep != ':' && sep !in e.key
    ensures var q := Split(PrintEntry(e, sep), sep);
            Merge(p + q[0], q[1..] + rest, sep) == Merge(p + Text(e), rest, sep)
  {
    match e.value
    case None =>
      SplitFree(e.key, [], sep);
      assert e.key + [] == e.key;
      assert [] + rest == rest;
    case Some(v) =>
      FreeFront(e.key + [':'], Escape(v, sep), sep);
      assert p + (e.key + [':'] + Split(Escape(v, sep), sep)[0]) == p + e.key + [':'] + Split(Escape(v, sep), sep)[0];
      MergeUnescapes(p + e.key + [':'], v, rest, sep);
      assert p + Text(e) == p + e.key + [':'] + v;
  }

  lemma FreeFront(s: string, t: string, sep: char)
    requires sep !in s
    ensures var q, more := Split(s + t, sep), Split(t, sep); q[0] == s + more[0] && q[1..] == more[1..]
  {
    SplitFree(s, t, sep);
  }

  /** The chunks the parser sees are the texts of the entries after swallowing. */
  lemma {:induction false} ChunksOfEntries(first: Entry, others: seq<Entry>, sep: char)
    requires sep != '\\' && sep != ':' && FreeKeys(others, sep)
    ensures ChunksFrom(Merge(Text(first), Pieces(others, sep), sep), sep)
            == TextsOf(Swallow([first] + others, sep))
    decreases |others|
  {
    assert ([first] + others)[1..] == others;
    EscapedText(first);
    if others == [] {
      assert Pieces(others, sep) == [] && Chunks([], sep) == Some([]) && Swallow(others, sep) == Some([]);
      assert Texts([first]) == [Text(first)] + Texts([first][1..]) == [Text(first)];
    } else {
      var next, more := others[0], others[1..];
      if Escaped(Tail(first)) {
        SwallowNext(first, next, more, sep);
        ChunksOfEntries(Swallowing(first, next, sep), more, sep);
        assert ([first] + others)[2..] == more;
      } else {
        ChunksOfPieces(next, more, sep);
        ChunksOfEntries(next, more, sep);
        assert [next] + more == others;
      }
    }
  }

  lemma SwallowNext(first: Entry, next: Entry, more: seq<Entry>, sep: char)
    requires sep != '\\' && sep != ':' && sep !in next.key && Escaped(Tail(first))
    ensures Merge(Text(first), Pieces([next] + more, sep), sep)
            == Merge(Text(Swallowing(first, next, sep)), Pieces(more, sep), sep)
  {
    SwallowingText(first, next, sep);
    var p := Text(first)[..|Text(first)|-1];
    PiecesCons(next, more, sep);
    assert Text(first) == p + ['\\'];
    MergeTakesIn(p, Split(PrintEntry(next, sep), sep), Pieces(more, sep), sep);
    MergeEntry(p + [sep], next, Pieces(more, sep), sep);
  }

  lemma PiecesCons(next: Entry, more: seq<Entry>, sep: char)
    ensures Pieces([next] + more, sep) == Split(PrintEntry(next, sep), sep) + Pieces(more, sep)
  {
    assert ([next] + more)[1..] == more;
  }

  lemma ChunksOfPieces(next: Entry, more: seq<Entry>, sep: char)
    requires sep != '\\' && sep != ':' && sep !in next.key
    ensures Chunks(Pieces([next] + more, sep), sep) == ChunksFrom(Merge(Text(next), Pieces(more, sep), sep), sep)
  {
    var q := Split(PrintEntry(next, sep), sep);
    assert ([next] + more)[1..] == more;
    assert Pieces([next] + more, sep) == q + Pieces(more, sep);
    assert (q + Pieces(more, sep))[1..] == q[1..] + Pieces(more, sep);
    MergeEntry([], next, Pieces(more, sep), sep);
    assert [] + q[0] == q[0] && [] + Text(next) == Text(next);
  }

  function TextsOf(entries: Option<seq<Entry>>): Option<seq<string>> {
    match entries case None => None case Some(es) => Some(Texts(es))
  }

  function Texts(entries: seq<Entry>): seq<string> {
    if entries == [] then [] else [Text(entries[0])] + Texts(entries[1..])
  }

  lemma AssignEntry(settings: Settings, e: Entry, cs: Charset)
    requires ':' !in e.key
    ensures Assign(settings, Text(e), cs) == Set(settings, e, cs)
  {
    SplitFree(e.key, [], ':');
    assert e.key + [] == e.key;
    match e.value
    case None =>
    case Some(v) =>
      assert Text(e) == e.key + [':'] + v;
      SplitConcat(e.key, v, ':');
      assert Split(Text(e), ':') == [e.key] + Split(v, ':');
      assert ([e.key] + Split(v, ':'))[1..] == Split(v, ':');
      JoinSplit(v, ':');
  }

  lemma {:induction false} AssignEntries(settings: Settings, entries: seq<Entry>, cs: Charset)
    requires NoColons(entries)
    ensures AssignAll(settings, Texts(entries), cs) == Collect(settings, entries, cs)
    decreases entries
  {
    if entries != [] {
      AssignEntry(settings, entries[0], cs);
      assert Texts(entries)[1..] == Texts(entries[1..]);
      AssignEntries(Set(settings, entries[0], cs), entries[1..], cs);
    }
  }

  lemma {:induction false} SwallowKeepsKeys(entries: seq<Entry>, sep: char)
    requires sep != ':' && NoColons(entries)
    ensures Swallow(entries, sep).Some? ==> NoColons(Swallow(entries, sep).value)
    decreases |entries|
  {
    if entries == [] {
    } else if Escaped(Tail(entries[0])) {
      if |entries| > 1 {
        SwallowKeepsKeys([Swallowing(entries[0], entries[1], sep)] + entries[2..], sep);
      }
    } else {
      SwallowKeepsKeys(entries[1..], sep);
    }
  }

  /** What the parser makes of printed entries, for all keys without ':' and separators, and all values or none. */
  lemma ParsePrint(entries: seq<Entry>, sep: char, cs: Charset)
    requires sep != '\\' && sep != ':' && FreeKeys(entries, sep)
    ensures Parse(Print(entries, sep), sep, cs)
            == match Swallow(entries, sep) { case None => Panic case Some(es) => Ok(Collect(map[], es, cs)) }
  {
    if entries == [] {
      ParseNothing(sep, cs);
    } else {
      SplitPrint(entries, sep);
      assert [entries[0]] + entries[1..] == entries;
      ChunksOfPieces(entries[0], entries[1..], sep);
      ChunksOfEntries(entries[0], entries[1..], sep);
      SwallowKeepsKeys(entries, sep);
      match Swallow(entries, sep)
      case None =>
      case Some(es) => AssignEntries(map[], es, cs);
    }
  }

  lemma ParseNothing(sep: char, cs: Charset)
    ensures Parse([], sep, cs) == Ok(map[])
  {
    assert Chunks([], sep) == Some([]);
    var names: seq<string> := [[]];
    assert names[1..] == [];
    assert Merge(names[0], names[1..], sep) == Some(([], []));
    assert ChunksFrom(Some(([], [])), sep) == Some([[]] + []);
    assert Split([], ':') == [[]] && Key([], cs) == [];
    assert Assign(map[], [], cs) == map[];
    assert AssignAll(map[], names, cs) == AssignAll(map[], [], cs);
  }

  // ----- Keys -----

  lemma {:induction false} TrimIs(s: string, cs: Charset) returns (i: nat, j: nat)
    ensures i <= j <= |s| && TrimSpace(s, cs) == s[i..j]
    ensures forall m :: 0 <= m < i || j <= m < |s| ==> cs.space(s[m])
    ensures i < j ==> !cs.space(s[i]) && !cs.space(s[j-1])
    decreases |s|
  {
    i, j := 0, |s|;
    if s != [] && cs.space(s[0]) {
      var from, to := TrimIs(s[1..], cs);
      i, j := from + 1, to + 1;
      assert s[1..][from..to] == s[i..j];
      assert forall m :: 1 <= m < |s| ==> s[m] == s[1..][m-1];
    } else if s != [] && cs.space(s[|s|-1]) {
      i, j := TrimIs(s[..|s|-1], cs);
    }
  }

  /** A key is a part of its text, upper-cased character by character, without blanks at its ends; only blanks are cut
      off. */
  lemma KeyIs(raw: string, cs: Charset) returns (i: nat, j: nat)
    ensures i <= j <= |raw| && |Key(raw, cs)| == j - i
    ensures forall m :: i <= m < j ==> Key(raw, cs)[m - i] == cs.upper(raw[m])
    ensures forall m :: 0 <= m < i || j <= m < |raw| ==> cs.space(cs.upper(raw[m]))
    ensures i < j ==> !cs.space(cs.upper(raw[i])) && !cs.space(cs.upper(raw[j-1]))
  {
    i, j := TrimIs(ToUpper(raw, cs), cs);
  }

  /** What the round trip asks of the tables: the separator and the backslash are not blank and are their own upper
      case, and no other character has the separator for its upper case. */
  ghost predicate PlainSeparator(sep: char, cs: Charset) {
    && sep != '\\' && sep != ':'
    && (forall c :: cs.upper(c) == sep <==> c == sep) && !cs.space(sep)
    && cs.upper('\\') == '\\' && !cs.space('\\')
  }

  lemma KeyKeeps(raw: string, sep: char, cs: Charset)
    requires PlainSeparator(sep, cs)
    ensures sep in raw <==> sep in Key(raw, cs)
    ensures Escaped(raw) ==> Key(raw, cs) != []
  {
    var i, j := KeyIs(raw, cs);
    if sep in raw {
      var m :| 0 <= m < |raw| && raw[m] == sep;
      assert Key(raw, cs)[m - i] == sep;
    }
    if sep in Key(raw, cs) {
      var m :| 0 <= m < j - i && Key(raw, cs)[m] == sep;
      assert Key(raw, cs)[(m + i) - i] == cs.upper(raw[m + i]);
    }
    if Escaped(raw) {
      assert cs.upper(raw[|raw|-1]) == '\\';
    }
  }

  // ----- The round trip -----

  /** The entry sets something: only an empty key without a value does not. */
  predicate Sets(e: Entry, cs: Charset) {
    e.value.Some? || Key(e.key, cs) != []
  }

  /** The entry can be read off the settings: its key has its value, or itself if there is none. */
  predicate Holds(settings: Settings, e: Entry, cs: Charset) {
    var k := Key(e.key, cs);
    k in settings && settings[k] == if e.value.Some? then e.value.value else k
  }

  /** The settings are those of the entries and no others. */
  ghost predicate Means(settings: Settings, entries: seq<Entry>, cs: Charset) {
    && (forall i :: 0 <= i < |entries| && Sets(entries[i], cs) ==> Holds(settings, entries[i], cs))
    && (forall k :: k in settings ==> exists i :: 0 <= i < |entries| && SetsKey(entries[i], k, cs))
  }

  predicate SetsKey(e: Entry, k: string, cs: Charset) {
    Sets(e, cs) && Key(e.key, cs) == k
  }

  ghost predicate DistinctKeys(entries: seq<Entry>, cs: Charset) {
    forall i, j :: 0 <= i < j < |entries| && Sets(entries[i], cs) && Sets(entries[j], cs) ==>
      Key(entries[i].key, cs) != Key(entries[j].key, cs)
  }

  ghost predicate NoneEscaped(entries: seq<Entry>) {
    forall i :: 0 <= i < |entries| ==> !Escaped(Tail(entries[i]))
  }

  lemma {:induction false} SwallowNothing(entries: seq<Entry>, sep: char)
    requires NoneEscaped(entries)
    ensures Swallow(entries, sep) == Some(entries)
    decreases |entries|
  {
    if entries != [] {
      SwallowNothing(entries[1..], sep);
      assert [entries[0]] + entries[1..] == entries;
    }
  }

  /** MAIN RESULT: printing settings and parsing the tag gives them back, for every list of entries that do not end in
      a backslash; values may be missing, or hold separators, colons and inner backslashes. */
  lemma RoundTrip(entries: seq<Entry>, sep: char, cs: Charset)
    requires sep != '\\' && sep != ':' && FreeKeys(entries, sep) && NoneEscaped(entries)
    ensures Parse(Print(entries, sep), sep, cs) == Ok(Collect(map[], entries, cs))
  {
    ParsePrint(entries, sep, cs);
    SwallowNothing(entries, sep);
  }

  lemma {:induction false} CollectOther(settings: Settings, entries: seq<Entry>, k: string, cs: Charset)
    requires forall i :: 0 <= i < |entries| ==> !SetsKey(entries[i], k, cs)
    ensures k in Collect(settings, entries, cs) <==> k in settings
    ensures k in settings ==> Collect(settings, entries, cs)[k] == settings[k]
    decreases entries
  {
    if entries != [] {
      assert !SetsKey(entries[0], k, cs);
      CollectOther(Set(settings, entries[0], cs), entries[1..], k, cs);
    }
  }

  lemma {:induction false} CollectHas(settings: Settings, entries: seq<Entry>, i: nat, cs: Charset)
    requires DistinctKeys(entries, cs) && i < |entries| && Sets(entries[i], cs)
    ensures Holds(Collect(settings, entries, cs), entries[i], cs)
    decreases entries
  {
    var next := Set(settings, entries[0], cs);
    if i == 0 {
      CollectOther(next, entries[1..], Key(entries[0].key, cs), cs);
    } else {
      CollectHas(next, entries[1..], i - 1, cs);
    }
  }

  lemma CollectMeans(entries: seq<Entry>, cs: Charset)
    requires DistinctKeys(entries, cs)
    ensures Means(Collect(map[], entries, cs), entries, cs)
  {
    var settings := Collect(map[], entries, cs);
    forall i | 0 <= i < |entries| && Sets(entries[i], cs)
      ensures Holds(settings, entries[i], cs)
    {
      CollectHas(map[], entries, i, cs);
    }
    forall k | k in settings
      ensures exists i :: 0 <= i < |entries| && SetsKey(entries[i], k, cs)
    {
      if forall i :: 0 <= i < |entries| ==> !SetsKey(entries[i], k, cs) {
        CollectOther(map[], entries, k, cs);
      }
    }
  }

  /** What swallowing makes of an entry: a value changes exactly if it ends in a backslash and never gets shorter, and a
      bare key then gets a separator in it. */
  ghost predicate Grown(e: Entry, g: Entry, sep: char) {
    match e.value
    case None => if Escaped(e.key) then sep in g.key else g == e
    case Some(v) =>
      && g.key == e.key && g.value.Some?
      && |g.value.value| >= |v| && (g.value.value == v <==> !Escaped(v))
  }

  /** The entry does not set k, or has a key with a separator. */
  ghost predicate Avoids(e: Entry, k: string, sep: char, cs: Charset) {
    sep in e.key || !SetsKey(e, k, cs)
  }

  lemma SwallowingGrows(e: Entry, next: Entry, g: Entry, sep: char)
    requires sep != '\\' && Escaped(Tail(e)) && Grown(Swallowing(e, next, sep), g, sep)
    ensures Grown(e, g, sep)
  {
    var m := Swallowing(e, next, sep);
    match e.value
    case None =>
      assert m.key[|e.key|-1] == sep;
    case Some(v) =>
      assert m.value.value[|v|-1] == sep;
  }

  /** Swallowing lets the first entry grow, and no later one sets a key that none of them did. */
  lemma {:induction false} SwallowKeys(entries: seq<Entry>, sep: char, k: string, cs: Charset)
    requires sep != '\\'
    requires forall i :: 1 <= i < |entries| ==> Avoids(entries[i], k, sep, cs)
    ensures Swallow(entries, sep).Some? ==> KeysKept(entries, Swallow(entries, sep).value, sep, k, cs)
    decreases |entries|
  {
    if entries == [] {
    } else if Escaped(Tail(entries[0])) {
      if |entries| > 1 {
        var first := Swallowing(entries[0], entries[1], sep);
        SwallowKeys([first] + entries[2..], sep, k, cs);
        match Swallow(entries, sep)
        case None =>
        case Some(es) => SwallowingGrows(entries[0], entries[1], es[0], sep);
      }
    } else {
      SwallowKeys(entries[1..], sep, k, cs);
      match Swallow(entries[1..], sep)
      case None =>
      case Some(others) => KeysKeptBehind(entries, others, sep, k, cs);
    }
  }

  /** The first of the entries es grew out of the first of the others, and no later one sets k. */
  ghost predicate KeysKept(entries: seq<Entry>, es: seq<Entry>, sep: char, k: string, cs: Charset) {
    && (es == [] <==> entries == [])
    && (es != [] ==> Grown(entries[0], es[0], sep))
    && forall i :: 1 <= i < |es| ==> Avoids(es[i], k, sep, cs)
  }

  lemma KeysKeptBehind(entries: seq<Entry>, others: seq<Entry>, sep: char, k: string, cs: Charset)
    requires entries != [] && !Escaped(Tail(entries[0]))
    requires |entries| > 1 ==> Avoids(entries[1], k, sep, cs)
    requires KeysKept(entries[1..], others, sep, k, cs)
    ensures KeysKept(entries, [entries[0]] + others, sep, k, cs)
  {
    if others != [] {
      assert Grown(entries[1], others[0], sep);
      assert Avoids(others[0], k, sep, cs);
    }
  }

  /** If some entry ends in a backslash, the first such one cannot be read off what is parsed. */
  lemma {:induction false} SwallowChanges(settings: Settings, entries: seq<Entry>, sep: char, cs: Charset)
    requires PlainSeparator(sep, cs) && FreeKeys(entries, sep) && DistinctKeys(entries, cs) && !NoneEscaped(entries)
    requires forall i :: 0 <= i < |entries| && Sets(entries[i], cs) ==> Key(entries[i].key, cs) !in settings
    ensures match Swallow(entries, sep)
            case None => true
            case Some(es) =>
              exists i :: 0 <= i < |entries|
                          && Sets(entries[i], cs) && !Holds(Collect(settings, es, cs), entries[i], cs)
    decreases |entries|
  {
    var first := entries[0];
    if Escaped(Tail(first)) {
      FirstIsLost(settings, entries, sep, cs);
    } else {
      var others := entries[1..];
      assert !NoneEscaped(others) by {
        var i :| 0 <= i < |entries| && Escaped(Tail(entries[i]));
        assert others[i-1] == entries[i];
      }
      var after := Set(settings, first, cs);
      SwallowChanges(after, others, sep, cs);
      match Swallow(others, sep)
      case None =>
      case Some(es) =>
        var i :| 0 <= i < |others| && Sets(others[i], cs) && !Holds(Collect(after, es, cs), others[i], cs);
        assert ([first] + es)[1..] == es;
        assert Collect(settings, [first] + es, cs) == Collect(after, es, cs);
        assert entries[i+1] == others[i];
    }
  }

  lemma FirstIsLost(settings: Settings, entries: seq<Entry>, sep: char, cs: Charset)
    requires PlainSeparator(sep, cs) && FreeKeys(entries, sep) && DistinctKeys(entries, cs)
    requires entries != [] && Escaped(Tail(entries[0]))
    requires Sets(entries[0], cs) ==> Key(entries[0].key, cs) !in settings
    ensures Sets(entries[0], cs)
    ensures match Swallow(entries, sep)
            case None => true
            case Some(es) => !Holds(Collect(settings, es, cs), entries[0], cs)
  {
    var first := entries[0];
    var k := Key(first.key, cs);
    KeyKeeps(first.key, sep, cs);
    assert Sets(first, cs);
    SwallowKeys(entries, sep, k, cs);
    match Swallow(entries, sep)
    case None =>
    case Some(es) =>
      forall i | 0 <= i < |es| && (i > 0 || first.value.None?)
        ensures !SetsKey(es[i], k, cs)
      {
        KeyKeeps(es[i].key, sep, cs);
      }
      if first.value.None? {
        CollectOther(settings, es, k, cs);
      } else {
        CollectOther(Set(settings, es[0], cs), es[1..], k, cs);
      }
  }

  /** Exactly when a set of settings survives: no entry ends in a backslash. */
  lemma RoundTripIff(entries: seq<Entry>, sep: char, cs: Charset)
    requires PlainSeparator(sep, cs) && FreeKeys(entries, sep) && DistinctKeys(entries, cs)
    ensures var r := Parse(Print(entries, sep), sep, cs);
            r.Ok? && Means(r.value, entries, cs) <==> NoneEscaped(entries)
  {
    if NoneEscaped(entries) {
      RoundTrip(entries, sep, cs);
      CollectMeans(entries, cs);
    } else {
      ParsePrint(entries, sep, cs);
      SwallowChanges(map[], entries, sep, cs);
    }
  }
}
