/** The `.env` file of the CI containers: `WriteEnvFile` reads it, merges it over defaults, records
    which sanitizer images were pulled, and prints it back. */
module EnvFile {

  datatype Option<T> = None | Some(value: T)

  // ---------------------------------------------------------------- strings

  /** Line boundaries of `str.splitlines`. */
  predicate IsBreak(c: char) {
    '\n' <= c <= '\r' || '\U{1c}' <= c <= '\U{1e}' || c in {'\U{85}', '\U{2028}', '\U{2029}'}
  }

  /** Characters removed by `str.strip`; every line boundary is one. */
  predicate IsBlank(c: char) {
    IsBreak(c) || c in {' ', '\t', '\U{1f}', '\U{a0}', '\U{1680}', '\U{202f}', '\U{205f}', '\U{3000}'}
    || '\U{2000}' <= c <= '\U{200a}'
  }

  function LStrip(s: string, drop: char -> bool): string {
    if s != "" && drop(s[0]) then LStrip(s[1..], drop) else s
  }

  function RStrip(s: string, drop: char -> bool): string {
    if s != "" && drop(s[|s| - 1]) then RStrip(s[..|s| - 1], drop) else s
  }

  function Strip(s: string, drop: char -> bool): string {
    RStrip(LStrip(s, drop), drop)
  }

  const Blank: char -> bool := c => IsBlank(c)
  const Quote: char -> bool := c => c == '"'

  /** Index of the first character satisfying p, or the length. */
  function Find(s: string, p: char -> bool): (i: nat)
    ensures i <= |s|
    ensures forall k | 0 <= k < i :: !p(s[k])
    ensures i < |s| ==> p(s[i])
  {
    if s == "" || p(s[0]) then 0 else 1 + Find(s[1..], p)
  }

  const Break: char -> bool := c => IsBreak(c)
  const Equal: char -> bool := c => c == '='

  /** `str.splitlines`; a carriage return and line feed are one boundary. */
  function SplitLines(s: string): seq<string>
    decreases |s|
  {
    if s == "" then []
    else
      var i := Find(s, Break);
      if i == |s| then [s]
      else
        var next := if s[i] == '\r' && i + 1 < |s| && s[i + 1] == '\n' then i + 2 else i + 1;
        [s[..i]] + SplitLines(s[next..])
  }

  /** `"\n".join(lines)`. */
  function Join(lines: seq<string>): string {
    if lines == [] then ""
    else if |lines| == 1 then lines[0]
    else lines[0] + "\n" + Join(lines[1..])
  }

  /** `sub in s`. */
  predicate Contains(s: string, sub: string) {
    sub <= s || (s != "" && Contains(s[1..], sub))
  }

  // ---------------------------------------------------------------- ordered dictionaries

  datatype Entry = Entry(key: string, val: string)

  /** A Python dict: entries in insertion order, one per key. */
  type Env = seq<Entry>

  predicate Unique(env: Env) {
    forall i, j | 0 <= i < j < |env| :: env[i].key != env[j].key
  }

  function Lookup(env: Env, key: string): Option<string> {
    if env == [] then None
    else if env[0].key == key then Some(env[0].val)
    else Lookup(env[1..], key)
  }

  /** `env[key] = val`: in place for a known key, at the end for a new one. */
  function Set(env: Env, key: string, val: string): Env {
    if env == [] then [Entry(key, val)]
    else if env[0].key == key then [Entry(key, val)] + env[1..]
    else [env[0]] + Set(env[1..], key, val)
  }

  /** `{**env, **over}`. */
  function Merge(env: Env, over: Env): Env {
    if over == [] then env
    else Set(Merge(env, over[..|over| - 1]), over[|over| - 1].key, over[|over| - 1].val)
  }

  // ---------------------------------------------------------------- reading and printing

  function PrintEntry(e: Entry): string {
    e.key + "=\"" + e.val + "\""
  }

  function Lines(env: Env): seq<string> {
    seq(|env|, i requires 0 <= i < |env| => PrintEntry(env[i]))
  }

  /** What `echo -e '...'` leaves in the file, for text without backslash or single quote. */
  function Print(env: Env): string {
    Join(Lines(env)) + "\n"
  }

  /** `var, val = l.split('=', 1)`, with the quotes stripped; a line without '=' raises an error. */
  function ParseLine(l: string): Option<Entry> {
    var i := Find(l, Equal);
    if i == |l| then None else Some(Entry(l[..i], Strip(l[i + 1..], Quote)))
  }

  function ParseLines(lines: seq<string>): Option<Env> {
    if lines == [] then Some([])
    else
      match ParseLines(lines[..|lines| - 1])
      case None => None
      case Some(env) =>
        match ParseLine(lines[|lines| - 1])
        case None => None
        case Some(e) => Some(Set(env, e.key, e.val))
  }

  function Parse(file: string): Option<Env> {
    ParseLines(SplitLines(Strip(file, Blank)))
  }

  // ---------------------------------------------------------------- the call

  function Defaults(tag: string, flexric: string): Env {
    [Entry("REGISTRY", "oai-ci"), Entry("TAG", tag), Entry("FLEXRIC_TAG", flexric)]
  }

  /** The entry that records a pulled sanitizer image, if its name is recognised. */
  function ImageEntry(image: string): Option<Entry> {
    if Contains(image, "oai-enb") then Some(Entry("ENB_IMG", "oai-enb-asan"))
    else if Contains(image, "oai-gnb") then Some(Entry("GNB_IMG", "oai-gnb-asan"))
    else if Contains(image, "oai-lte-ue") then Some(Entry("LTEUE_IMG", "oai-lte-ue-asan"))
    else if Contains(image, "oai-nr-ue") then Some(Entry("NRUE_IMG", "oai-nr-ue-asan"))
    else if Contains(image, "oai-nr-cuup") then Some(Entry("NRCUUP_IMG", "oai-nr-cuup-asan"))
    else None
  }

  const IMG_KEYS: set<string> := {"ENB_IMG", "GNB_IMG", "LTEUE_IMG", "NRUE_IMG", "NRCUUP_IMG"}

  /** The loop over the images of the services, `pulled` telling which have a sanitizer build. */
  function Record(env: Env, images: seq<string>, pulled: string -> bool): Env {
    if images == [] then env
    else
      var env' := Record(env, images[..|images| - 1], pulled);
      var image := images[|images| - 1];
      var e := ImageEntry(image);
      if pulled(image) && e.Some? then Set(env', e.value.key, e.value.val) else env'
  }

  /** The environment a call writes, given what it read. */
  function NewEnv(prior: Env, tag: string, flexric: string, images: seq<string>, pulled: string -> bool): Env {
    Record(Merge(Defaults(tag, flexric), prior), images, pulled)
  }

  /** The loop that turns the file into a dict. */
  method ReadEnvs(file: string) returns (envs: Option<Env>)
    ensures envs == Parse(file)
  {
    var old_envs: Env := [];
    var lines := SplitLines(Strip(file, Blank));
    for i := 0 to |lines|
      invariant ParseLines(lines[..i]) == Some(old_envs)
    {
      assert lines[..i + 1][..i] == lines[..i];
      var e := ParseLine(lines[i]);
      if e.None? {
        FailureSpreads(lines, i + 1);
        return None;
      }
      old_envs := Set(old_envs, e.value.key, e.value.val);
    }
    assert lines[..|lines|] == lines;
    envs := Some(old_envs);
  }

  /** `WriteEnvFile`: the file before (if any) and after; no result when parsing it raises an error. */
  method WriteEnvFile(file: Option<string>, tag: string, flexric: string, images: seq<string>, pulled: string -> bool)
    returns (written: Option<string>)
    ensures var prior := if file.None? then Some([]) else Parse(file.value);
            written == if prior.None? then None else Some(Print(NewEnv(prior.value, tag, flexric, images, pulled)))
  {
    var envs := Defaults(tag, flexric);
    if file.Some? {
      var old_envs := ReadEnvs(file.value);
      if old_envs.None? {
        return None;
      }
      envs := Merge(envs, old_envs.value);
    }
    ghost var merged := envs;
    for i := 0 to |images|
      invariant envs == Record(merged, images[..i], pulled)
    {
      assert images[..i + 1][..i] == images[..i];
      var e := ImageEntry(images[i]);
      if pulled(images[i]) && e.Some? {
        envs := Set(envs, e.value.key, e.value.val);
      }
    }
    assert images[..|images|] == images;
    written := Some(Print(envs));
  }

  lemma {:induction false} FailureSpreads(lines: seq<string>, i: nat)
    requires i <= |lines| && ParseLines(lines[..i]).None?
    ensures ParseLines(lines).None?
    decreases |lines| - i
  {
    if i == |lines| {
      assert lines[..i] == lines;
    } else {
      assert lines[..i + 1][..i] == lines[..i];
      FailureSpreads(lines, i + 1);
    }
  }

  // ---------------------------------------------------------------- round trip

  predicate Free(s: string, p: char -> bool) {
    forall k | 0 <= k < |s| :: !p(s[k])
  }

  /** Characters the shell would interpret inside `echo -e '...'`. */
  const Shell: char -> bool := c => c == '\\' || c == '\''

  predicate WellFormedKey(k: string) {
    k != "" && !IsBlank(k[0]) && Free(k, Equal) && Free(k, Break) && Free(k, Shell)
  }

  predicate WellFormedVal(v: string) {
    && Free(v, Break) && Free(v, Shell)
    && (v != "" ==> v[0] != '"' && v[|v| - 1] != '"')
  }

  predicate WellFormed(env: Env) {
    Unique(env) && forall i | 0 <= i < |env| :: WellFormedKey(env[i].key) && WellFormedVal(env[i].val)
  }

  lemma {:induction false} LStripQuoted(v: string)
    ensures LStrip(v + "\"", Quote) == if LStrip(v, Quote) == "" then "" else LStrip(v, Quote) + "\""
  {
    if v == "" {
      assert LStrip("\"", Quote) == LStrip("", Quote);
    } else {
      assert (v + "\"")[1..] == v[1..] + "\"";
      if v[0] == '"' {
        LStripQuoted(v[1..]);
      }
    }
  }

  /** The quotes a value is printed in come off, together with any at its own ends. */
  lemma QuotesStripped(v: string)
    ensures Strip("\"" + v + "\"", Quote) == Strip(v, Quote)
  {
    var q := "\"" + v + "\"";
    assert q[1..] == v + "\"";
    LStripQuoted(v);
    var x := LStrip(v, Quote);
    if x != "" {
      assert (x + "\"")[..|x|] == x;
    }
  }

  lemma {:induction false} StripShorter(s: string, drop: char -> bool)
    ensures |LStrip(s, drop)| <= |s| && (|LStrip(s, drop)| == |s| ==> LStrip(s, drop) == s)
    ensures |RStrip(s, drop)| <= |s| && (|RStrip(s, drop)| == |s| ==> RStrip(s, drop) == s)
    ensures LStrip(s, drop) == s <==> s == "" || !drop(s[0])
    ensures RStrip(s, drop) == s <==> s == "" || !drop(s[|s| - 1])
  {
    if s != "" {
      StripShorter(s[1..], drop);
      StripShorter(s[..|s| - 1], drop);
    }
  }

  lemma StripFixed(s: string, drop: char -> bool)
    ensures Strip(s, drop) == s <==> s == "" || (!drop(s[0]) && !drop(s[|s| - 1]))
  {
    StripShorter(s, drop);
    StripShorter(LStrip(s, drop), drop);
    hide LStrip, RStrip;
  }

  lemma {:induction false} FindPast(s: string, l: string, p: char -> bool)
    requires l <= s && Free(l, p) && (|l| < |s| ==> p(s[|l|]))
    ensures Find(s, p) == |l|
  {
    if l != "" {
      FindPast(s[1..], l[1..], p);
    }
  }

  /** A line with a proper key reads back with the outer quotes of its value stripped. */
  lemma ParsePrinted(e: Entry)
    requires Free(e.key, Equal)
    ensures ParseLine(PrintEntry(e)) == Some(Entry(e.key, Strip(e.val, Quote)))
  {
    var l := PrintEntry(e);
    FindPast(l, e.key, Equal);
    assert l[..|e.key|] == e.key && l[|e.key| + 1..] == "\"" + e.val + "\"";
    QuotesStripped(e.val);
  }

  /** So it reads back as printed if and only if its value neither starts nor ends with a quote. */
  lemma EntryRoundTripIff(e: Entry)
    requires Free(e.key, Equal)
    ensures ParseLine(PrintEntry(e)) == Some(e) <==>
            (e.val == "" || (e.val[0] != '"' && e.val[|e.val| - 1] != '"'))
  {
    ParsePrinted(e);
    StripFixed(e.val, Quote);
    hide ParseLine, Strip;
  }

  lemma JoinCons(lines: seq<string>)
    requires |lines| > 1
    ensures var s, l := Join(lines), lines[0];
            l <= s && |l| < |s| && s[|l|] == '\n' && s[..|l|] == l && s[|l| + 1..] == Join(lines[1..])
  {
  }

  /** A line without boundaries in front of the text. */
  lemma SplitFirst(l: string, rest: string)
    requires Free(l, Break)
    ensures SplitLines(l + "\n" + rest) == [l] + SplitLines(rest)
    ensures l != "" ==> SplitLines(l) == [l]
  {
    var s := l + "\n" + rest;
    FindPast(s, l, Break);
    FindPast(l, l, Break);
    hide Find;
    assert s[|l|] == '\n' && s[..|l|] == l && s[|l| + 1..] == rest;
  }

  lemma {:induction false} SplitJoin(lines: seq<string>)
    requires forall i | 0 <= i < |lines| :: lines[i] != "" && Free(lines[i], Break)
    ensures SplitLines(Join(lines)) == lines
  {
    if lines != [] {
      SplitFirst(lines[0], Join(lines[1..]));
      if |lines| > 1 {
        SplitJoin(lines[1..]);
        hide SplitLines;
      }
    }
  }

  lemma {:induction false} JoinEnds(lines: seq<string>)
    requires lines != [] && forall i | 0 <= i < |lines| :: lines[i] != ""
    ensures var s, last := Join(lines), lines[|lines| - 1];
            s != "" && s[0] == lines[0][0] && s[|s| - 1] == last[|last| - 1]
  {
    if |lines| > 1 {
      JoinEnds(lines[1..]);
      JoinCons(lines);
      hide Join;
      var s, rest := Join(lines), Join(lines[1..]);
      assert s[|lines[0]| + 1..][|rest| - 1] == s[|s| - 1];
      assert lines[1..][|lines| - 2] == lines[|lines| - 1];
    }
  }

  lemma StripPrinted(env: Env)
    requires WellFormed(env)
    ensures Strip(Print(env), Blank) == Join(Lines(env))
  {
    var s := Join(Lines(env));
    if env == [] {
      assert Lines(env) == [] && Print(env) == "\n";
      assert LStrip("\n", Blank) == LStrip("", Blank);
    } else {
      JoinEnds(Lines(env));
      assert s[0] == PrintEntry(env[0])[0] == env[0].key[0];
      assert s[|s| - 1] == '"';
      TrailingNewline(s);
    }
  }

  lemma TrailingNewline(s: string)
    requires s != "" && !IsBlank(s[0]) && !IsBlank(s[|s| - 1])
    ensures Strip(s + "\n", Blank) == s
  {
    var t := s + "\n";
    assert LStrip(t, Blank) == t;
    assert t[..|t| - 1] == s;
    assert RStrip(t, Blank) == RStrip(s, Blank) == s;
  }

  lemma {:induction false} SetNew(env: Env, key: string, val: string)
    requires forall i | 0 <= i < |env| :: env[i].key != key
    ensures Set(env, key, val) == env + [Entry(key, val)]
  {
    if env != [] {
      SetNew(env[1..], key, val);
    }
  }

  lemma ParseSnoc(lines: seq<string>, l: string, env: Env, e: Entry)
    requires ParseLines(lines) == Some(env) && ParseLine(l) == Some(e)
    ensures ParseLines(lines + [l]) == Some(Set(env, e.key, e.val))
  {
    assert (lines + [l])[..|lines|] == lines;
  }

  lemma LinesSnoc(env: Env, e: Entry)
    ensures Lines(env + [e]) == Lines(env) + [PrintEntry(e)]
  {
    hide PrintEntry;
  }

  lemma WellFormedInit(env: Env)
    requires WellFormed(env) && env != []
    ensures var n := |env| - 1;
            && WellFormed(env[..n]) && env == env[..n] + [env[n]]
            && WellFormedKey(env[n].key) && WellFormedVal(env[n].val)
            && forall i | 0 <= i < n :: env[..n][i].key != env[n].key
  {
    hide WellFormedKey, WellFormedVal;
  }

  lemma {:induction false} ParsePrintedLines(env: Env)
    requires WellFormed(env)
    ensures ParseLines(Lines(env)) == Some(env)
  {
    if env != [] {
      var init, e := env[..|env| - 1], env[|env| - 1];
      WellFormedInit(env);
      EntryRoundTripIff(e);
      hide ParseLines, ParseLine, PrintEntry, Lines, WellFormed;
      ParsePrintedLines(init);
      SetNew(init, e.key, e.val);
      LinesSnoc(init, e);
      ParseSnoc(Lines(init), PrintEntry(e), init, e);
    }
  }

  /** Reading back a printed file returns the same entries in the same order. */
  lemma RoundTrip(env: Env)
    requires WellFormed(env)
    ensures Parse(Print(env)) == Some(env)
  {
    StripPrinted(env);
    forall i | 0 <= i < |env| ensures Lines(env)[i] != "" && Free(Lines(env)[i], Break) {
      var l := PrintEntry(env[i]);
      forall k | 0 <= k < |l| ensures !Break(l[k]) {
        var e := env[i];
        if k < |e.key| {
          assert l[k] == e.key[k];
        } else if |e.key| + 2 <= k < |l| - 1 {
          assert l[k] == e.val[k - |e.key| - 2];
        }
      }
    }
    SplitJoin(Lines(env));
    ParsePrintedLines(env);
  }

  // ---------------------------------------------------------------- what a call keeps

  lemma {:induction false} SetLookup(env: Env, key: string, val: string, k: string)
    ensures Lookup(Set(env, key, val), k) == if k == key then Some(val) else Lookup(env, k)
  {
    if env != [] && env[0].key != key {
      SetLookup(env[1..], key, val, k);
    }
  }

  lemma UniqueTail(env: Env)
    requires Unique(env) && env != []
    ensures Unique(env[1..]) && forall j | 0 <= j < |env| - 1 :: env[1..][j].key != env[0].key
  {
    forall i, j | 0 <= i < j < |env| - 1 ensures env[1..][i].key != env[1..][j].key {
      assert env[i + 1].key != env[j + 1].key;
    }
  }

  lemma UniqueCons(e: Entry, rest: Env)
    requires Unique(rest) && forall j | 0 <= j < |rest| :: rest[j].key != e.key
    ensures Unique([e] + rest)
  {
  }

  lemma {:induction false} SetLonger(env: Env, key: string, val: string)
    ensures |env| <= |Set(env, key, val)| <= |env| + 1
  {
    if env != [] {
      SetLonger(env[1..], key, val);
    }
  }

  /** Every entry of an updated dict is the new one or an old one in its old place. */
  lemma {:induction false} SetEntries(env: Env, key: string, val: string, i: nat)
    requires i < |Set(env, key, val)|
    ensures var e := Set(env, key, val);
            && (e[i] == Entry(key, val) || (i < |env| && e[i] == env[i]))
            && (i < |env| ==> e[i].key == env[i].key)
  {
    SetLonger(env, key, val);
    if env != [] && env[0].key != key && i > 0 {
      SetEntries(env[1..], key, val, i - 1);
    }
  }

  lemma {:induction false} SetUnique(env: Env, key: string, val: string)
    requires Unique(env)
    ensures Unique(Set(env, key, val))
  {
    if env != [] {
      UniqueTail(env);
      if env[0].key == key {
        UniqueCons(Entry(key, val), env[1..]);
      } else {
        SetUnique(env[1..], key, val);
        var rest := Set(env[1..], key, val);
        forall j | 0 <= j < |rest| ensures rest[j].key != env[0].key {
          SetEntries(env[1..], key, val, j);
        }
        UniqueCons(env[0], rest);
      }
    }
  }

  lemma SetShape(env: Env, key: string, val: string)
    requires Unique(env)
    ensures var e := Set(env, key, val);
            && Unique(e) && |e| >= |env|
            && (forall i | 0 <= i < |env| :: e[i].key == env[i].key)
            && (forall i | 0 <= i < |e| :: e[i] == Entry(key, val) || (i < |env| && e[i] == env[i]))
  {
    SetUnique(env, key, val);
    hide Unique;
    var e := Set(env, key, val);
    forall i | 0 <= i < |e|
      ensures e[i] == Entry(key, val) || (i < |env| && e[i] == env[i])
      ensures i < |env| ==> e[i].key == env[i].key
    {
      SetEntries(env, key, val, i);
    }
    SetLonger(env, key, val);
  }

  lemma {:induction false} LookupSnoc(env: Env, e: Entry, k: string)
    requires Unique(env + [e])
    ensures Lookup(env + [e], k) == if k == e.key then Some(e.val) else Lookup(env, k)
  {
    if env != [] {
      assert (env + [e])[1..] == env[1..] + [e];
      assert (env + [e])[|env|] == e;
      UniqueTail(env + [e]);
      LookupSnoc(env[1..], e, k);
    }
  }

  lemma {:induction false} MergeLookup(env: Env, over: Env, k: string)
    requires Unique(over)
    ensures Lookup(Merge(env, over), k) == if Lookup(over, k).Some? then Lookup(over, k) else Lookup(env, k)
  {
    if over != [] {
      var init, last := over[..|over| - 1], over[|over| - 1];
      MergeLookup(env, init, k);
      assert over == init + [last];
      LookupSnoc(init, last, k);
      SetLookup(Merge(env, init), last.key, last.val, k);
    }
  }

  lemma {:induction false} RecordLookup(env: Env, images: seq<string>, pulled: string -> bool, k: string)
    requires k !in IMG_KEYS
    ensures Lookup(Record(env, images, pulled), k) == Lookup(env, k)
  {
    if images != [] {
      RecordLookup(env, images[..|images| - 1], pulled, k);
      var e := ImageEntry(images[|images| - 1]);
      if e.Some? {
        SetLookup(Record(env, images[..|images| - 1], pulled), e.value.key, e.value.val, k);
      }
    }
  }

  /** One call: every entry read is written back with its value, `TAG` and the other defaults
      included, except for the image keys; missing defaults are added. */
  lemma CallKeepsEntries(prior: Env, tag: string, flexric: string, images: seq<string>, pulled: string -> bool, k: string)
    requires Unique(prior) && k !in IMG_KEYS
    ensures Lookup(NewEnv(prior, tag, flexric, images, pulled), k) ==
            if Lookup(prior, k).Some? then Lookup(prior, k) else Lookup(Defaults(tag, flexric), k)
  {
    MergeLookup(Defaults(tag, flexric), prior, k);
    RecordLookup(Merge(Defaults(tag, flexric), prior), images, pulled, k);
  }

  // ---------------------------------------------------------------- keys and values by name

  predicate OccursAt(s: string, sub: string, i: nat) {
    i + |sub| <= |s| && s[i..i + |sub|] == sub
  }

  /** `sub in s` asks for an occurrence anywhere. */
  lemma {:induction false} ContainsIff(s: string, sub: string)
    ensures Contains(s, sub) <==> exists i: nat :: OccursAt(s, sub, i)
  {
    assert OccursAt(s, sub, 0) <==> sub <= s;
    if s == "" {
      assert forall i: nat | i > 0 :: !OccursAt(s, sub, i);
    } else {
      ContainsIff(s[1..], sub);
      hide OccursAt;
      if i: nat :| OccursAt(s, sub, i) {
        if i > 0 { OccursLater(s, sub, i - 1); }
      }
      if i: nat :| OccursAt(s[1..], sub, i) {
        OccursLater(s, sub, i);
      }
    }
  }

  lemma OccursLater(s: string, sub: string, i: nat)
    requires s != ""
    ensures OccursAt(s, sub, i + 1) <==> OccursAt(s[1..], sub, i)
  {
    if i + 1 + |sub| <= |s| {
      assert s[1..][i..i + |sub|] == s[i + 1..i + 1 + |sub|];
    }
  }

  /** A pulled image is recorded as the first of the five names it contains. */
  predicate FirstName(image: string, key: string) {
    if Contains(image, "oai-enb") then key == "ENB_IMG"
    else if Contains(image, "oai-gnb") then key == "GNB_IMG"
    else if Contains(image, "oai-lte-ue") then key == "LTEUE_IMG"
    else if Contains(image, "oai-nr-ue") then key == "NRUE_IMG"
    else Contains(image, "oai-nr-cuup") && key == "NRCUUP_IMG"
  }

  predicate PulledFor(images: seq<string>, pulled: string -> bool, key: string) {
    exists i | 0 <= i < |images| :: pulled(images[i]) && FirstName(images[i], key)
  }

  /** Under a key that no pulled image is recorded as, nothing changes; under any other there is the
      name of the sanitizer image. */
  lemma {:induction false} RecordedUnder(env: Env, images: seq<string>, pulled: string -> bool, key: string, name: string)
    requires (key, name) in {("ENB_IMG", "oai-enb-asan"), ("GNB_IMG", "oai-gnb-asan"), ("LTEUE_IMG", "oai-lte-ue-asan"),
                             ("NRUE_IMG", "oai-nr-ue-asan"), ("NRCUUP_IMG", "oai-nr-cuup-asan")}
    ensures Lookup(Record(env, images, pulled), key) ==
            if PulledFor(images, pulled, key) then Some(name) else Lookup(env, key)
  {
    if images != [] {
      var n := |images| - 1;
      var init, image := images[..n], images[n];
      RecordedUnder(env, init, pulled, key, name);
      EntryNamed(image, key, name);
      assert PulledFor(images, pulled, key) <==> PulledFor(init, pulled, key) || (pulled(image) && FirstName(image, key)) by {
        PulledSnoc(images, pulled, key);
      }
      var e := ImageEntry(image);
      hide ImageEntry, FirstName, PulledFor, Lookup, Set;
      if e.Some? {
        SetLookup(Record(env, init, pulled), e.value.key, e.value.val, key);
      }
    }
  }

  lemma PulledSnoc(images: seq<string>, pulled: string -> bool, key: string)
    requires images != []
    ensures var n := |images| - 1;
            PulledFor(images, pulled, key) <==> PulledFor(images[..n], pulled, key) || (pulled(images[n]) && FirstName(images[n], key))
  {
    hide FirstName;
    var n := |images| - 1;
    if i :| 0 <= i < n && pulled(images[..n][i]) && FirstName(images[..n][i], key) {
      assert pulled(images[i]) && FirstName(images[i], key);
    }
    if i :| 0 <= i < |images| && pulled(images[i]) && FirstName(images[i], key) {
      assert i < n ==> pulled(images[..n][i]) && FirstName(images[..n][i], key);
    }
  }

  lemma EntryNamed(image: string, key: string, name: string)
    requires (key, name) in {("ENB_IMG", "oai-enb-asan"), ("GNB_IMG", "oai-gnb-asan"), ("LTEUE_IMG", "oai-lte-ue-asan"),
                             ("NRUE_IMG", "oai-nr-ue-asan"), ("NRCUUP_IMG", "oai-nr-cuup-asan")}
    ensures ImageEntry(image).Some? && ImageEntry(image).value.key == key <==> FirstName(image, key)
    ensures FirstName(image, key) ==> ImageEntry(image) == Some(Entry(key, name))
  {
    hide Contains;
    assert "ENB_IMG"[0] == 'E' && "GNB_IMG"[0] == 'G' && "LTEUE_IMG"[0] == 'L' && "NRUE_IMG"[2] == 'U' && "NRCUUP_IMG"[2] == 'C';
  }

  /** What a first call leaves, without a file before it. */
  lemma FirstCallWrites(tag: string, flexric: string, images: seq<string>, pulled: string -> bool)
    ensures var env := NewEnv([], tag, flexric, images, pulled);
            && Lookup(env, "REGISTRY") == Some("oai-ci")
            && Lookup(env, "TAG") == Some(tag)
            && Lookup(env, "FLEXRIC_TAG") == Some(flexric)
            && Lookup(env, "ENB_IMG") == (if PulledFor(images, pulled, "ENB_IMG") then Some("oai-enb-asan") else None)
  {
    assert "REGISTRY" !in IMG_KEYS && "TAG" !in IMG_KEYS && "FLEXRIC_TAG" !in IMG_KEYS;
    CallKeepsEntries([], tag, flexric, images, pulled, "REGISTRY");
    CallKeepsEntries([], tag, flexric, images, pulled, "TAG");
    CallKeepsEntries([], tag, flexric, images, pulled, "FLEXRIC_TAG");
    RecordedUnder(Merge(Defaults(tag, flexric), []), images, pulled, "ENB_IMG", "oai-enb-asan");
    hide PulledFor, Record;
    DefaultsNamed(tag, flexric);
  }

  lemma DefaultsNamed(tag: string, flexric: string)
    ensures var d := Defaults(tag, flexric);
            && Lookup(d, "REGISTRY") == Some("oai-ci") && Lookup(d, "TAG") == Some(tag)
            && Lookup(d, "FLEXRIC_TAG") == Some(flexric) && Lookup(d, "ENB_IMG") == None
  {
    assert |"REGISTRY"| == 8 && |"TAG"| == 3 && |"FLEXRIC_TAG"| == 11 && |"ENB_IMG"| == 7;
    var d := Defaults(tag, flexric);
    var d1 := [Entry("TAG", tag), Entry("FLEXRIC_TAG", flexric)];
    var d2 := [Entry("FLEXRIC_TAG", flexric)];
    assert d[1..] == d1 && d1[1..] == d2 && d2[1..] == [];
    assert Lookup(d2, "FLEXRIC_TAG") == Some(flexric) && Lookup(d2, "ENB_IMG") == None;
    assert Lookup(d1, "FLEXRIC_TAG") == Some(flexric) && Lookup(d1, "ENB_IMG") == None;
  }

  /** The text of a file, and a line that another tool wrote without quotes. */
  lemma PrintedText(tag: string)
    ensures Print([Entry("REGISTRY", "oai-ci"), Entry("TAG", tag)]) == "REGISTRY=\"oai-ci\"\nTAG=\"" + tag + "\"\n"
  {
    var env := [Entry("REGISTRY", "oai-ci"), Entry("TAG", tag)];
    assert PrintEntry(env[0]) == "REGISTRY=\"oai-ci\"";
    assert PrintEntry(env[1]) == "TAG=\"" + tag + "\"";
    hide PrintEntry;
    assert Lines(env)[1..] == [PrintEntry(env[1])];
    assert Join(Lines(env)) == PrintEntry(env[0]) + "\n" + PrintEntry(env[1]);
    assert "REGISTRY=\"oai-ci\"" + "\n" + ("TAG=\"" + tag + "\"") + "\n" == "REGISTRY=\"oai-ci\"\nTAG=\"" + tag + "\"\n";
  }

  lemma ParseLineIs(l: string, key: string, val: string)
    requires Free(key, Equal) && l == key + "=" + val
    ensures ParseLine(l) == Some(Entry(key, Strip(val, Quote)))
  {
    FindPast(l, key, Equal);
    assert l[..|key|] == key && l[|key| + 1..] == val;
  }

  /** A line without '=' is an error. */
  lemma ParseLineFailsIff(l: string)
    ensures ParseLine(l) == None <==> '=' !in l
  {
    var i := Find(l, Equal);
    assert '=' in l ==> i < |l|;
  }

  // ---------------------------------------------------------------- well-formedness

  predicate GoodEntry(e: Entry) {
    WellFormedKey(e.key) && WellFormedVal(e.val)
  }

  lemma SetWellFormed(env: Env, e: Entry)
    requires WellFormed(env) && GoodEntry(e)
    ensures WellFormed(Set(env, e.key, e.val))
  {
    SetShape(env, e.key, e.val);
  }

  lemma {:induction false} MergeWellFormed(env: Env, over: Env)
    requires WellFormed(env) && WellFormed(over)
    ensures WellFormed(Merge(env, over))
  {
    if over != [] {
      MergeWellFormed(env, over[..|over| - 1]);
      SetWellFormed(Merge(env, over[..|over| - 1]), over[|over| - 1]);
    }
  }

  /** Letters, hyphen and underscore. */
  predicate PlainChar(c: char) {
    'A' <= c <= 'Z' || 'a' <= c <= 'z' || c == '-' || c == '_'
  }

  predicate PlainText(s: string) {
    forall c | c in s :: PlainChar(c)
  }

  lemma PlainTextGood(s: string)
    requires s != "" && PlainText(s)
    ensures WellFormedKey(s) && WellFormedVal(s)
  {
    forall k | 0 <= k < |s| ensures !IsBlank(s[k]) && !Equal(s[k]) && !Break(s[k]) && !Shell(s[k]) && s[k] != '"' {
      assert s[k] in s;
      PlainCharGood(s[k]);
    }
    hide IsBlank, IsBreak;
  }

  lemma PlainCharGood(c: char)
    requires PlainChar(c)
    ensures !IsBlank(c) && !Equal(c) && !Break(c) && !Shell(c) && c != '"'
  {
  }

  lemma PlainEntryGood(key: string, val: string)
    requires key != "" && PlainText(key) && val != "" && PlainText(val)
    ensures GoodEntry(Entry(key, val))
  {
    PlainTextGood(key);
    PlainTextGood(val);
  }

  lemma DefaultTexts()
    ensures PlainText("REGISTRY") && PlainText("oai-ci") && PlainText("TAG") && PlainText("FLEXRIC_TAG")
  {
  }

  lemma DefaultsGood(tag: string, flexric: string)
    requires WellFormedVal(tag) && WellFormedVal(flexric)
    ensures forall e | e in Defaults(tag, flexric) :: GoodEntry(e)
  {
    DefaultTexts();
    hide PlainText, WellFormedKey, WellFormedVal;
    PlainTextGood("REGISTRY");
    PlainTextGood("oai-ci");
    PlainTextGood("TAG");
    PlainTextGood("FLEXRIC_TAG");
  }

  lemma DefaultsUnique(tag: string, flexric: string)
    ensures Unique(Defaults(tag, flexric))
  {
    assert |"REGISTRY"| == 8 && |"TAG"| == 3 && |"FLEXRIC_TAG"| == 11;
  }

  lemma DefaultsWellFormed(tag: string, flexric: string)
    requires WellFormedVal(tag) && WellFormedVal(flexric)
    ensures WellFormed(Defaults(tag, flexric))
  {
    hide Unique, WellFormedKey, WellFormedVal;
    DefaultsGood(tag, flexric);
    DefaultsUnique(tag, flexric);
    var env := Defaults(tag, flexric);
    forall i | 0 <= i < |env| ensures WellFormedKey(env[i].key) && WellFormedVal(env[i].val) {
      assert env[i] in env && GoodEntry(env[i]);
    }
  }

  lemma ImageTexts()
    ensures PlainText("ENB_IMG") && PlainText("GNB_IMG") && PlainText("LTEUE_IMG") && PlainText("NRUE_IMG") && PlainText("NRCUUP_IMG")
  {
  }

  lemma ImageNames()
    ensures PlainText("oai-enb-asan") && PlainText("oai-gnb-asan") && PlainText("oai-lte-ue-asan")
    ensures PlainText("oai-nr-ue-asan") && PlainText("oai-nr-cuup-asan")
  {
  }

  lemma ImageEntryGood(image: string)
    ensures ImageEntry(image).Some? ==> GoodEntry(ImageEntry(image).value) && ImageEntry(image).value.key in IMG_KEYS
  {
    ImageTexts();
    ImageNames();
    hide PlainText, Contains, GoodEntry;
    PlainEntryGood("ENB_IMG", "oai-enb-asan");
    PlainEntryGood("GNB_IMG", "oai-gnb-asan");
    PlainEntryGood("LTEUE_IMG", "oai-lte-ue-asan");
    PlainEntryGood("NRUE_IMG", "oai-nr-ue-asan");
    PlainEntryGood("NRCUUP_IMG", "oai-nr-cuup-asan");
  }

  lemma {:induction false} RecordWellFormed(env: Env, images: seq<string>, pulled: string -> bool)
    requires WellFormed(env)
    ensures WellFormed(Record(env, images, pulled))
  {
    if images != [] {
      RecordWellFormed(env, images[..|images| - 1], pulled);
      var image := images[|images| - 1];
      ImageEntryGood(image);
      if ImageEntry(image).Some? {
        SetWellFormed(Record(env, images[..|images| - 1], pulled), ImageEntry(image).value);
      }
    }
  }

  lemma NewEnvWellFormed(prior: Env, tag: string, flexric: string, images: seq<string>, pulled: string -> bool)
    requires WellFormed(prior) && WellFormedVal(tag) && WellFormedVal(flexric)
    ensures WellFormed(NewEnv(prior, tag, flexric, images, pulled))
  {
    DefaultsWellFormed(tag, flexric);
    MergeWellFormed(Defaults(tag, flexric), prior);
    RecordWellFormed(Merge(Defaults(tag, flexric), prior), images, pulled);
  }

  // ---------------------------------------------------------------- sequences of calls

  datatype Call = Call(tag: string, flexric: string, images: seq<string>, pulled: string -> bool)

  predicate GoodCall(c: Call) {
    WellFormedVal(c.tag) && WellFormedVal(c.flexric)
  }

  /** The file after a sequence of calls, each reading what the one before wrote. */
  function FileAfter(file: string, calls: seq<Call>): Option<string> {
    if calls == [] then Some(file)
    else
      match FileAfter(file, calls[..|calls| - 1])
      case None => None
      case Some(f) =>
        match Parse(f)
        case None => None
        case Some(env) =>
          var c := calls[|calls| - 1];
          Some(Print(NewEnv(env, c.tag, c.flexric, c.images, c.pulled)))
  }

  /** Across any sequence of calls on a file that reads as a well-formed environment: every call
      succeeds, what it writes reads back as written, and every entry the file had keeps its value,
      except the image keys. */
  lemma {:induction false} EntriesSurvive(file: string, env: Env, calls: seq<Call>, k: string) returns (file': string, env': Env)
    requires Parse(file) == Some(env) && WellFormed(env)
    requires forall i | 0 <= i < |calls| :: GoodCall(calls[i])
    ensures FileAfter(file, calls) == Some(file') && Parse(file') == Some(env') && WellFormed(env')
    ensures Lookup(env, k).Some? && k !in IMG_KEYS ==> Lookup(env', k) == Lookup(env, k)
  {
    if calls == [] {
      file', env' := file, env;
    } else {
      var n := |calls| - 1;
      var text, mid := EntriesSurvive(file, env, calls[..n], k);
      var c := calls[n];
      env' := NewEnv(mid, c.tag, c.flexric, c.images, c.pulled);
      file' := Print(env');
      NewEnvWellFormed(mid, c.tag, c.flexric, c.images, c.pulled);
      RoundTrip(env');
      if k !in IMG_KEYS {
        CallKeepsEntries(mid, c.tag, c.flexric, c.images, c.pulled, k);
      }
    }
  }

  // ---------------------------------------------------------------- idempotence

  lemma {:induction false} SetSame(env: Env, key: string, val: string)
    requires Lookup(env, key) == Some(val)
    ensures Set(env, key, val) == env
  {
    if env[0].key != key {
      SetSame(env[1..], key, val);
    }
  }

  lemma {:induction false} SetAt(env: Env, i: nat, val: string)
    requires i < |env| && forall j | 0 <= j < i :: env[j].key != env[i].key
    ensures Set(env, env[i].key, val) == env[i := Entry(env[i].key, val)]
  {
    if i > 0 {
      SetAt(env[1..], i - 1, val);
    }
  }

  /** One entry of an environment laid over a list that has its key in the same place. */
  lemma OwnReplace(base: Env, env: Env, i: nat)
    requires Unique(env) && i < |base| <= |env|
    requires base[i].key == env[i].key
    ensures Set(env[..i] + base[i..], env[i].key, env[i].val) == env[..i + 1] + base[i + 1..]
  {
    var l := env[..i] + base[i..];
    assert l[i].key == env[i].key;
    SetAt(l, i, env[i].val);
    hide Set, Unique;
    assert env[i] == Entry(env[i].key, env[i].val);
    assert l[i := env[i]] == env[..i + 1] + base[i + 1..];
  }

  lemma OwnAppend(env: Env, i: nat)
    requires Unique(env) && i < |env|
    ensures Set(env[..i], env[i].key, env[i].val) == env[..i + 1]
  {
    SetNew(env[..i], env[i].key, env[i].val);
    assert env[i] == Entry(env[i].key, env[i].val);
    assert env[..i] + [env[i]] == env[..i + 1];
  }

  /** Defaults merged under an environment that begins with their keys change nothing. */
  lemma {:induction false} MergeOwn(base: Env, env: Env, i: nat)
    requires Unique(env) && |base| <= |env| && i <= |env|
    requires forall j | 0 <= j < |base| :: base[j].key == env[j].key
    ensures Merge(base, env[..i]) == if i < |base| then env[..i] + base[i..] else env[..i]
  {
    hide Set, Unique;
    if i == 0 {
      assert base[0..] == base && env[..0] + base == base;
    } else {
      MergeOwn(base, env, i - 1);
      assert env[..i][..i - 1] == env[..i - 1];
      if i - 1 < |base| {
        OwnReplace(base, env, i - 1);
        assert i == |base| ==> env[..i] + base[i..] == env[..i];
      } else {
        OwnAppend(env, i - 1);
      }
    }
  }

  lemma {:induction false} MergeKeys(env: Env, over: Env)
    requires Unique(env)
    ensures var m := Merge(env, over);
            Unique(m) && |m| >= |env| && forall i | 0 <= i < |env| :: m[i].key == env[i].key
  {
    if over != [] {
      MergeKeys(env, over[..|over| - 1]);
      SetShape(Merge(env, over[..|over| - 1]), over[|over| - 1].key, over[|over| - 1].val);
    }
  }

  lemma {:induction false} RecordKeys(env: Env, images: seq<string>, pulled: string -> bool)
    requires Unique(env)
    ensures var m := Record(env, images, pulled);
            Unique(m) && |m| >= |env| && forall i | 0 <= i < |env| :: m[i].key == env[i].key
  {
    if images != [] {
      var n := |images| - 1;
      RecordKeys(env, images[..n], pulled);
      var e := ImageEntry(images[n]);
      if e.Some? {
        SetShape(Record(env, images[..n], pulled), e.value.key, e.value.val);
      }
    }
  }

  lemma KeyFixesImage(a: string, b: string)
    requires ImageEntry(a).Some? && ImageEntry(b).Some? && ImageEntry(a).value.key == ImageEntry(b).value.key
    ensures ImageEntry(a) == ImageEntry(b)
  {
    hide Contains;
    assert "ENB_IMG"[0] == 'E' && "GNB_IMG"[0] == 'G' && "LTEUE_IMG"[0] == 'L' && "NRUE_IMG"[2] == 'U' && "NRCUUP_IMG"[2] == 'C';
  }

  /** Every pulled image of the list is on record afterwards. */
  lemma {:induction false} Recorded(env: Env, images: seq<string>, pulled: string -> bool, i: nat)
    requires i < |images| && pulled(images[i]) && ImageEntry(images[i]).Some?
    ensures var e := ImageEntry(images[i]).value;
            Lookup(Record(env, images, pulled), e.key) == Some(e.val)
  {
    var n := |images| - 1;
    var e := ImageEntry(images[i]).value;
    var last := ImageEntry(images[n]);
    if last.Some? && last.value.key == e.key {
      KeyFixesImage(images[i], images[n]);
    }
    hide ImageEntry, Lookup, Set;
    if i < n {
      Recorded(env, images[..n], pulled, i);
    }
    if last.Some? {
      SetLookup(Record(env, images[..n], pulled), last.value.key, last.value.val, e.key);
    }
  }

  lemma {:induction false} RecordAgain(env: Env, images: seq<string>, pulled: string -> bool)
    requires forall i | 0 <= i < |images| && pulled(images[i]) && ImageEntry(images[i]).Some? ::
               Lookup(env, ImageEntry(images[i]).value.key) == Some(ImageEntry(images[i]).value.val)
    ensures Record(env, images, pulled) == env
  {
    if images != [] {
      var n := |images| - 1;
      RecordAgain(env, images[..n], pulled);
      var e := ImageEntry(images[n]);
      if pulled(images[n]) && e.Some? {
        SetSame(env, e.value.key, e.value.val);
      }
    }
  }

  /** A repeated call with the same images pulled writes the same file, even with other tags. */
  lemma RepeatIsIdempotent(file: string, env: Env, c: Call, tag': string, flexric': string)
    requires Parse(file) == Some(env) && WellFormed(env) && GoodCall(c)
    ensures var again := c.(tag := tag', flexric := flexric');
            FileAfter(file, [c]).Some? && FileAfter(file, [c, again]) == FileAfter(file, [c])
  {
    var again := c.(tag := tag', flexric := flexric');
    var env1 := NewEnv(env, c.tag, c.flexric, c.images, c.pulled);
    NewEnvWellFormed(env, c.tag, c.flexric, c.images, c.pulled);
    RoundTrip(env1);
    assert [c][..0] == [] && [c, again][..1] == [c];
    assert FileAfter(file, [c]) == Some(Print(env1));
    NewEnvAgain(env, c, tag', flexric');
  }

  lemma NewEnvAgain(env: Env, c: Call, tag': string, flexric': string)
    requires Unique(env)
    ensures var env1 := NewEnv(env, c.tag, c.flexric, c.images, c.pulled);
            NewEnv(env1, tag', flexric', c.images, c.pulled) == env1
  {
    var base := Defaults(c.tag, c.flexric);
    var merged := Merge(base, env);
    var env1 := Record(merged, c.images, c.pulled);
    MergeKeys(base, env);
    RecordKeys(merged, c.images, c.pulled);
    MergeOwn(Defaults(tag', flexric'), env1, |env1|);
    assert env1[..|env1|] == env1;
    forall i | 0 <= i < |c.images| && c.pulled(c.images[i]) && ImageEntry(c.images[i]).Some?
      ensures Lookup(env1, ImageEntry(c.images[i]).value.key) == Some(ImageEntry(c.images[i]).value.val)
    {
      Recorded(merged, c.images, c.pulled, i);
    }
    RecordAgain(env1, c.images, c.pulled);
  }
}
