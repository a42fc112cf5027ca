/** The required config keys of a descriptor: read from an environment value or from an
    assignment inside a command argument (signing-service/src/genpolicy.rs). */
module ConfigKeys {
  import opened Bytes
  import opened TextRewriting

  const NAME := "ENCLAVA_REQUIRED_CONFIG_KEYS"
  const PREFIX := NAME + "="

  /** Unicode white space, which `str::trim` removes. */
  predicate IsWhiteSpace(c: char) {
    var n := c as int;
    || 0x09 <= n <= 0x0D || n == 0x20 || n == 0x85 || n == 0xA0 || n == 0x1680
    || 0x2000 <= n <= 0x200A || n == 0x2028 || n == 0x2029 || n == 0x202F || n == 0x205F || n == 0x3000
  }

  /** `is_ascii_whitespace` (which leaves the vertical tab out) or a semicolon. */
  predicate IsTerminator(c: char) {
    c == ' ' || c == '\t' || c == '\n' || c == '\r' || c as int == 0x0C || c == ';'
  }

  predicate IsDouble(c: char) { c == '"' }

  predicate IsSingle(c: char) { c == '\'' }

  predicate IsKeyStart(c: char) {
    'a' <= c <= 'z' || 'A' <= c <= 'Z' || c == '_'
  }

  predicate IsKeyPart(c: char) {
    IsKeyStart(c) || '0' <= c <= '9'
  }

  predicate ValidKey(key: string) {
    key != [] && IsKeyStart(key[0]) && forall c :: c in key ==> IsKeyPart(c)
  }

  function TrimStart(s: string, p: char -> bool): string {
    if s != [] && p(s[0]) then TrimStart(s[1..], p) else s
  }

  function TrimEnd(s: string, p: char -> bool): string {
    if s != [] && p(s[|s| - 1]) then TrimEnd(s[..|s| - 1], p) else s
  }

  function Trim(s: string, p: char -> bool): string {
    TrimEnd(TrimStart(s, p), p)
  }

  /** The trimmed pieces that are not empty, in order. */
  function NonEmptyTrimmed(parts: seq<string>): seq<string> {
    if parts == [] then []
    else
      var key := Trim(parts[0], IsWhiteSpace);
      (if key == [] then [] else [key]) + NonEmptyTrimmed(parts[1..])
  }

  function Normalize(value: string): Option<string> {
    var keys := NonEmptyTrimmed(Split(value, ','));
    if keys == [] || exists key :: key in keys && !ValidKey(key) then None else Some(Join(keys, ','))
  }

  function TakeUntil(s: string, p: char -> bool): string {
    if s == [] || p(s[0]) then [] else [s[0]] + TakeUntil(s[1..], p)
  }

  /** The text of the first assignment in an argument, up to its terminator. */
  function AssignedText(arg: string): Option<string> {
    var at := Find(arg, PREFIX);
    if at.None? then None else Some(TakeUntil(arg[at.value + |PREFIX|..], IsTerminator))
  }

  function FromArg(arg: string): Option<string> {
    var text := AssignedText(arg);
    if text.None? then None else Normalize(Trim(Trim(text.value, IsDouble), IsSingle))
  }

  function FirstFromArgs(args: seq<string>): Option<string> {
    if args == [] then None
    else if FromArg(args[0]).Some? then FromArg(args[0])
    else FirstFromArgs(args[1..])
  }

  /** The value of the first variable of a name, as `find` gives it. */
  function FirstValue(env: seq<(string, string)>, name: string): Option<string> {
    if env == [] then None
    else if env[0].0 == name then Some(env[0].1)
    else FirstValue(env[1..], name)
  }

  function FromDescriptor(env: seq<(string, string)>, command: seq<string>, args: seq<string>): Option<string> {
    var value := FirstValue(env, NAME);
    if value.Some? && Normalize(value.value).Some? then Normalize(value.value)
    else FirstFromArgs(command + args)
  }

  // ------------------------------------------------------------------- trimming

  ghost predicate All(s: string, p: char -> bool) {
    forall c :: c in s ==> p(c)
  }

  ghost predicate Bare(s: string, p: char -> bool) {
    s != [] ==> !p(s[0]) && !p(s[|s| - 1])
  }

  /** Trimming removes exactly the padding on both sides... */
  lemma {:induction false} TrimPadded(a: string, m: string, b: string, p: char -> bool)
    requires All(a, p) && All(b, p) && Bare(m, p)
    ensures Trim(a + m + b, p) == m
  {
    if a != [] {
      assert (a + m + b)[1..] == a[1..] + m + b;
      assert (a + m + b)[0] == a[0];
      TrimPadded(a[1..], m, b, p);
    } else if m == [] {
      TrimAll(b, p);
      assert a + m + b == b;
    } else {
      assert (a + m + b)[0] == m[0];
      assert a + m + b == m + b;
      TrimEndPadded(m, b, p);
    }
  }

  lemma {:induction false} TrimAll(b: string, p: char -> bool)
    requires All(b, p)
    ensures TrimStart(b, p) == []
  {
    if b == [] {
    } else {
      TrimAll(b[1..], p);
    }
  }

  lemma {:induction false} TrimEndPadded(m: string, b: string, p: char -> bool)
    requires All(b, p) && m != [] && !p(m[|m| - 1])
    ensures TrimEnd(m + b, p) == m
  {
    if b == [] {
      assert m + b == m;
    } else {
      assert (m + b)[..|m + b| - 1] == m + b[..|b| - 1];
      TrimEndPadded(m, b[..|b| - 1], p);
    }
  }

  /** ... and every text is some padding around its trimmed form. */
  lemma TrimSplits(s: string, p: char -> bool) returns (a: string, b: string)
    ensures All(a, p) && All(b, p) && Bare(Trim(s, p), p)
    ensures s == a + Trim(s, p) + b
  {
    a := TrimStartSplits(s, p);
    b := TrimEndSplits(TrimStart(s, p), p);
    var t := TrimStart(s, p);
    if Trim(s, p) != [] {
      assert t[0] == Trim(s, p)[0];
    }
    assert s == a + (Trim(s, p) + b);
  }

  lemma {:induction false} TrimStartSplits(s: string, p: char -> bool) returns (a: string)
    ensures All(a, p) && s == a + TrimStart(s, p)
    ensures TrimStart(s, p) != [] ==> !p(TrimStart(s, p)[0])
  {
    if s != [] && p(s[0]) {
      a := TrimStartSplits(s[1..], p);
      a := [s[0]] + a;
    } else {
      a := [];
    }
  }

  lemma {:induction false} TrimEndSplits(s: string, p: char -> bool) returns (b: string)
    ensures All(b, p) && s == TrimEnd(s, p) + b
    ensures TrimEnd(s, p) != [] ==> !p(TrimEnd(s, p)[|TrimEnd(s, p)| - 1])
  {
    if s != [] && p(s[|s| - 1]) {
      b := TrimEndSplits(s[..|s| - 1], p);
      b := b + [s[|s| - 1]];
    } else {
      b := [];
    }
  }

  lemma TrimBare(m: string, p: char -> bool)
    requires Bare(m, p)
    ensures Trim(m, p) == m
  {
    TrimPadded([], m, [], p);
    assert [] + m + [] == m;
  }

  // ---------------------------------------------------------------- normalizing

  lemma ValidKeyChars(key: string)
    requires ValidKey(key)
    ensures ',' !in key && Bare(key, IsWhiteSpace) && Bare(key, IsDouble) && Bare(key, IsSingle)
    ensures !exists c :: c in key && IsTerminator(c)
  {
    assert key[0] in key && key[|key| - 1] in key;
  }

  ghost predicate PaddedBy(part: string, key: string, a: string, b: string) {
    All(a, IsWhiteSpace) && All(b, IsWhiteSpace) && part == a + key + b
  }

  ghost predicate Padded(part: string, key: string) {
    exists a, b :: PaddedBy(part, key, a, b)
  }

  /** The pieces hold these keys in this order, each in white space, between any number of
      blank pieces. */
  ghost predicate Spells(parts: seq<string>, keys: seq<string>) {
    if parts == [] then keys == []
    else
      || (All(parts[0], IsWhiteSpace) && Spells(parts[1..], keys))
      || (keys != [] && Padded(parts[0], keys[0]) && Spells(parts[1..], keys[1..]))
  }

  ghost predicate AllValid(keys: seq<string>) {
    forall i :: 0 <= i < |keys| ==> ValidKey(keys[i])
  }

  lemma PaddedTrimmed(part: string, key: string)
    requires Padded(part, key) && Bare(key, IsWhiteSpace)
    ensures Trim(part, IsWhiteSpace) == key
  {
    var a, b :| PaddedBy(part, key, a, b);
    TrimPadded(a, key, b, IsWhiteSpace);
  }

  lemma BlankTrimmed(part: string)
    ensures All(part, IsWhiteSpace) <==> Trim(part, IsWhiteSpace) == []
  {
    var a, b := TrimSplits(part, IsWhiteSpace);
    if All(part, IsWhiteSpace) {
      TrimPadded(part, [], [], IsWhiteSpace);
      assert part + [] + [] == part;
    }
  }

  lemma {:induction false} SpellsExactly(parts: seq<string>, keys: seq<string>)
    requires AllValid(keys)
    ensures Spells(parts, keys) <==> NonEmptyTrimmed(parts) == keys
  {
    if parts == [] {
    } else {
      var key := Trim(parts[0], IsWhiteSpace);
      var rest := NonEmptyTrimmed(parts[1..]);
      BlankTrimmed(parts[0]);
      SpellsExactly(parts[1..], keys);
      if keys != [] {
        SpellsExactly(parts[1..], keys[1..]);
        ValidKeyChars(keys[0]);
        if Padded(parts[0], keys[0]) {
          PaddedTrimmed(parts[0], keys[0]);
        }
        if key == keys[0] {
          var a, b := TrimSplits(parts[0], IsWhiteSpace);
          assert PaddedBy(parts[0], keys[0], a, b);
        }
        assert ([key] + rest)[1..] == rest;
        assert keys == [keys[0]] + keys[1..];
      }
    }
  }

  lemma JoinedKeysSplit(keys: seq<string>)
    requires keys != [] && AllValid(keys)
    ensures Split(Join(keys, ','), ',') == keys
  {
    forall i | 0 <= i < |keys| ensures ',' !in keys[i] {
      ValidKeyChars(keys[i]);
    }
    SplitJoin(keys, ',');
  }

  /** The result is the given keys exactly when the comma-separated pieces spell them; two key
      lists never give one result. */
  lemma NormalizeExactly(value: string, keys: seq<string>)
    requires keys != [] && AllValid(keys)
    ensures Normalize(value) == Some(Join(keys, ',')) <==> Spells(Split(value, ','), keys)
  {
    SpellsExactly(Split(value, ','), keys);
    var found := NonEmptyTrimmed(Split(value, ','));
    JoinedKeysSplit(keys);
    if Normalize(value).Some? {
      assert AllValid(found);
      JoinedKeysSplit(found);
    }
    if found == keys {
      assert forall key :: key in keys ==> ValidKey(key);
    }
  }

  /** Every result is the join of some valid keys. */
  lemma ResultIsKeys(value: string) returns (keys: seq<string>)
    requires Normalize(value).Some?
    ensures keys != [] && AllValid(keys) && Normalize(value) == Some(Join(keys, ','))
    ensures Split(Normalize(value).value, ',') == keys && Spells(Split(value, ','), keys)
  {
    keys := NonEmptyTrimmed(Split(value, ','));
    JoinedKeysSplit(keys);
    NormalizeExactly(value, keys);
  }

  lemma {:induction false} KeysSpellThemselves(keys: seq<string>)
    requires AllValid(keys)
    ensures Spells(keys, keys)
  {
    if keys == [] {
    } else {
      KeysSpellThemselves(keys[1..]);
      assert PaddedBy(keys[0], keys[0], [], []);
    }
  }

  /** A result is its own normal form. */
  lemma NormalizeIdempotent(value: string)
    requires Normalize(value).Some?
    ensures Normalize(Normalize(value).value) == Normalize(value)
  {
    var keys := ResultIsKeys(value);
    KeysSpellThemselves(keys);
    NormalizeExactly(Normalize(value).value, keys);
  }

  // ----------------------------------------------------------------- extracting

  /** The prefix has one `=`, at its end, so it is found first where it is written when the
      text before does not contain it. */
  lemma PrefixFound(before: string, rest: string)
    requires !Contains(before, PREFIX)
    ensures Find(before + PREFIX + rest, PREFIX) == Some(|before|)
  {
    var s := before + PREFIX + rest;
    assert '=' !in NAME;
    assert s[|before|..|before| + |PREFIX|] == PREFIX;
    forall i | 0 <= i < |before| ensures !OccursAt(s, PREFIX, i) {
      if i + |PREFIX| <= |before| {
        assert s[i..i + |PREFIX|] == before[i..i + |PREFIX|];
        assert !OccursAt(before, PREFIX, i);
      } else {
        var last := i + |NAME|;
        assert s[last] == NAME[last - |before|];
        assert s[i..i + |PREFIX|][|NAME|] == s[last];
        assert PREFIX[|NAME|] == '=';
      }
    }
    FindUnique(s, PREFIX, |before|);
  }

  lemma {:induction false} TakeUntilStops(v: string, rest: string, p: char -> bool)
    requires forall c :: c in v ==> !p(c)
    requires rest == [] || p(rest[0])
    ensures TakeUntil(v + rest, p) == v
  {
    if v == [] {
      assert v + rest == rest;
    } else {
      assert (v + rest)[1..] == v[1..] + rest;
      TakeUntilStops(v[1..], rest, p);
    }
  }

  /** Where the assigned text is. */
  lemma AssignedTextIs(before: string, v: string, rest: string)
    requires !Contains(before, PREFIX)
    requires forall c :: c in v ==> !IsTerminator(c)
    requires rest == [] || IsTerminator(rest[0])
    ensures AssignedText(before + PREFIX + v + rest) == Some(v)
  {
    var arg := before + PREFIX + v + rest;
    assert arg == before + PREFIX + (v + rest);
    PrefixFound(before, v + rest);
    assert arg[|before| + |PREFIX|..] == v + rest;
    TakeUntilStops(v, rest, IsTerminator);
  }

  /** Double quotes outside, single quotes inside, any number of each on either side. */
  ghost predicate QuotedBy(v: string, body: string, d: string, s: string, s': string, d': string) {
    && All(d, IsDouble) && All(d', IsDouble) && All(s, IsSingle) && All(s', IsSingle)
    && v == d + (s + body + s') + d'
  }

  ghost predicate Unquoted(body: string) {
    Bare(body, IsDouble) && Bare(body, IsSingle)
  }

  lemma QuotesTrimmed(v: string, body: string, d: string, s: string, s': string, d': string)
    requires QuotedBy(v, body, d, s, s', d') && Unquoted(body)
    ensures Trim(Trim(v, IsDouble), IsSingle) == body
  {
    var inner := s + body + s';
    assert forall c :: c in s || c in s' ==> !IsDouble(c);
    if inner != [] {
      assert s != [] ==> s[0] in s;
      assert s' != [] ==> s'[|s'| - 1] in s' && s'[0] in s';
      assert s != [] ==> s[|s| - 1] in s;
      assert inner[0] == if s != [] then s[0] else if body != [] then body[0] else s'[0];
      assert inner[|inner| - 1] ==
             if s' != [] then s'[|s'| - 1] else if body != [] then body[|body| - 1] else s[|s| - 1];
    }
    TrimPadded(d, inner, d', IsDouble);
    TrimPadded(s, body, s', IsSingle);
  }

  lemma TrimQuotes(v: string) returns (d: string, s: string, s': string, d': string)
    ensures QuotedBy(v, Trim(Trim(v, IsDouble), IsSingle), d, s, s', d')
  {
    d, d' := TrimSplits(v, IsDouble);
    s, s' := TrimSplits(Trim(v, IsDouble), IsSingle);
  }

  /** A text with a quote at an end has no normal form: the quote would belong to a key. */
  lemma QuotedRefused(value: string)
    requires Normalize(value).Some?
    ensures Unquoted(value)
  {
    var keys := ResultIsKeys(value);
    var parts := Split(value, ',');
    SpelledChars(parts, keys);
    JoinSplit(value, ',');
    NoQuotesJoined(parts);
    assert value != [] ==> value[0] in value && value[|value| - 1] in value;
  }

  lemma {:induction false} SpelledChars(parts: seq<string>, keys: seq<string>)
    requires Spells(parts, keys) && AllValid(keys)
    ensures forall i, c :: 0 <= i < |parts| && c in parts[i] ==> !IsDouble(c) && !IsSingle(c)
  {
    if parts == [] {
    } else {
      if All(parts[0], IsWhiteSpace) && Spells(parts[1..], keys) {
        SpelledChars(parts[1..], keys);
      } else {
        SpelledChars(parts[1..], keys[1..]);
      }
      forall i, c | 0 <= i < |parts| && c in parts[i] ensures !IsDouble(c) && !IsSingle(c) {
        if i > 0 {
          assert parts[i] == parts[1..][i - 1];
        }
      }
    }
  }

  lemma {:induction false} JoinedChars(parts: seq<string>, separator: char)
    ensures forall c :: c in Join(parts, separator) ==> c == separator || exists i :: 0 <= i < |parts| && c in parts[i]
  {
    if |parts| <= 1 {
    } else {
      JoinedChars(parts[1..], separator);
      forall c | c in Join(parts, separator) && c != separator ensures exists i :: 0 <= i < |parts| && c in parts[i] {
        if c !in parts[0] {
          assert c in Join(parts[1..], separator);
          var i :| 0 <= i < |parts[1..]| && c in parts[1..][i];
          assert c in parts[i + 1];
        }
      }
    }
  }

  lemma NoQuotesJoined(parts: seq<string>)
    requires forall i, c :: 0 <= i < |parts| && c in parts[i] ==> !IsDouble(c) && !IsSingle(c)
    ensures forall c :: c in Join(parts, ',') ==> !IsDouble(c) && !IsSingle(c)
  {
    JoinedChars(parts, ',');
    forall c | c in Join(parts, ',') && c != ',' ensures !IsDouble(c) && !IsSingle(c) {
      var i :| 0 <= i < |parts| && c in parts[i];
    }
  }

  /** An argument gives a result exactly when the assigned text is a body in quotes (double
      outside single, balanced or not) whose normal form is that result. */
  lemma FromArgExactly(arg: string, r: string)
    ensures FromArg(arg) == Some(r) <==>
            && AssignedText(arg).Some?
            && exists body, d, s, s', d' ::
                 && QuotedBy(AssignedText(arg).value, body, d, s, s', d')
                 && Unquoted(body) && Normalize(body) == Some(r)
  {
    if AssignedText(arg).Some? {
      var v := AssignedText(arg).value;
      if FromArg(arg) == Some(r) {
        var d, s, s', d' := TrimQuotes(v);
        QuotedRefused(Trim(Trim(v, IsDouble), IsSingle));
      }
      forall body, d, s, s', d' | QuotedBy(v, body, d, s, s', d') && Unquoted(body)
        ensures FromArg(arg) == Normalize(body)
      {
        QuotesTrimmed(v, body, d, s, s', d');
      }
    }
  }

  lemma KeysAreUnquoted(keys: seq<string>)
    requires keys != [] && AllValid(keys)
    ensures Normalize(Join(keys, ',')) == Some(Join(keys, ','))
    ensures forall c :: c in Join(keys, ',') ==> !IsTerminator(c)
    ensures Unquoted(Join(keys, ','))
  {
    JoinedKeysSplit(keys);
    KeysSpellThemselves(keys);
    NormalizeExactly(Join(keys, ','), keys);
    QuotedRefused(Join(keys, ','));
    JoinedChars(keys, ',');
    forall i | 0 <= i < |keys| ensures forall c :: c in keys[i] ==> !IsTerminator(c) {
      ValidKeyChars(keys[i]);
    }
  }

  /** The round trip: keys written into an argument, in quotes or without, are read back. */
  lemma WrittenKeysReadBack(
    before: string, keys: seq<string>, d: string, s: string, s': string, d': string, rest: string)
    requires keys != [] && AllValid(keys)
    requires !Contains(before, PREFIX) && (rest == [] || IsTerminator(rest[0]))
    requires All(d, IsDouble) && All(d', IsDouble) && All(s, IsSingle) && All(s', IsSingle)
    ensures FromArg(before + PREFIX + (d + (s + Join(keys, ',') + s') + d') + rest) == Some(Join(keys, ','))
  {
    var v := d + (s + Join(keys, ',') + s') + d';
    KeysAreUnquoted(keys);
    forall c | c in v ensures !IsTerminator(c) {
      assert c in d || c in s || c in Join(keys, ',') || c in s' || c in d';
    }
    AssignedTextIs(before, v, rest);
    assert QuotedBy(v, Join(keys, ','), d, s, s', d');
    QuotesTrimmed(v, Join(keys, ','), d, s, s', d');
  }

  /** The order of the two quotes matters: in single quotes outside double quotes no key is read. */
  lemma SingleOutsideDoubleRefused(arg: string, body: string)
    requires AssignedText(arg) == Some("'" + ("\"" + body + "\"") + "'")
    ensures FromArg(arg) == None
  {
    var inner := "\"" + body + "\"";
    var v := "'" + inner + "'";
    TrimBare(v, IsDouble);
    var trimmed := Trim(v, IsSingle);
    TrimPadded("'", inner, "'", IsSingle);
    if Normalize(inner).Some? {
      QuotedRefused(inner);
    }
  }

  // --------------------------------------------------------------- the descriptor

  /** The argument at an index gives a result, and none before it does. */
  ghost predicate FirstAt(args: seq<string>, i: nat) {
    i < |args| && FromArg(args[i]).Some? && forall j :: 0 <= j < i ==> FromArg(args[j]).None?
  }

  lemma {:induction false} FirstFromArgsAt(args: seq<string>, i: nat)
    requires FirstAt(args, i)
    ensures FirstFromArgs(args) == FromArg(args[i])
  {
    if i == 0 {
    } else {
      assert FromArg(args[0]).None?;
      forall j | 0 <= j < i - 1 ensures FromArg(args[1..][j]).None? {
        assert args[1..][j] == args[j + 1];
      }
      FirstFromArgsAt(args[1..], i - 1);
    }
  }

  /** The result is that of the first argument that gives one, and there is none only when no
      argument gives one. */
  lemma {:induction false} FirstFromArgsExactly(args: seq<string>)
    ensures forall i: nat :: FirstAt(args, i) ==> FirstFromArgs(args) == FromArg(args[i])
    ensures FirstFromArgs(args).Some? ==> exists i: nat :: FirstAt(args, i) && FirstFromArgs(args) == FromArg(args[i])
    ensures FirstFromArgs(args).None? ==> forall i :: 0 <= i < |args| ==> FromArg(args[i]).None?
  {
    forall i: nat | FirstAt(args, i) ensures FirstFromArgs(args) == FromArg(args[i]) {
      FirstFromArgsAt(args, i);
    }
    if args == [] {
    } else if FromArg(args[0]).Some? {
      assert FirstAt(args, 0);
    } else {
      FirstFromArgsExactly(args[1..]);
      assert forall i :: 0 < i < |args| ==> args[i] == args[1..][i - 1];
      if FirstFromArgs(args[1..]).Some? {
        var i: nat :| FirstAt(args[1..], i) && FirstFromArgs(args[1..]) == FromArg(args[1..][i]);
        assert args[i + 1] == args[1..][i];
        assert FirstAt(args, i + 1);
      }
    }
  }

  /** Whatever the source of the keys, the result is already in normal form; an environment
      value that has a normal form is never overridden. */
  lemma DescriptorKeysNormal(env: seq<(string, string)>, command: seq<string>, args: seq<string>)
    ensures FromDescriptor(env, command, args).Some? ==>
              Normalize(FromDescriptor(env, command, args).value) == FromDescriptor(env, command, args)
    ensures FirstValue(env, NAME).Some? && Normalize(FirstValue(env, NAME).value).Some? ==>
              FromDescriptor(env, command, args) == FromDescriptor(env, [], [])
  {
    var r := FromDescriptor(env, command, args);
    if r.Some? {
      var value := FirstValue(env, NAME);
      if value.Some? && Normalize(value.value).Some? {
        NormalizeIdempotent(value.value);
      } else {
        FirstFromArgsExactly(command + args);
        var i: nat :| FirstAt(command + args, i) && r == FromArg((command + args)[i]);
        NormalizeIdempotent(Trim(Trim(AssignedText((command + args)[i]).value, IsDouble), IsSingle));
      }
    }
  }

  /** The characters that matter, by their numbers: Unicode white space for trimming, ASCII white
      space without the vertical tab or a semicolon for ending an assignment, and a key of letters,
      digits and underscores that does not start with a digit. */
  lemma CharactersMean(c: char, key: string)
    ensures IsWhiteSpace(c) <==>
            || c as int in {9, 10, 11, 12, 13, 32, 133, 160, 5760, 8232, 8233, 8239, 8287, 12288}
            || 8192 <= c as int <= 8202
    ensures IsTerminator(c) <==> c as int in {9, 10, 12, 13, 32, 59}
    ensures IsDouble(c) <==> c as int == 34
    ensures IsSingle(c) <==> c as int == 39
    ensures ValidKey(key) <==>
            && |key| > 0 && !(48 <= key[0] as int <= 57)
            && forall i :: 0 <= i < |key| ==>
                 || 48 <= key[i] as int <= 57 || 65 <= key[i] as int <= 90
                 || 97 <= key[i] as int <= 122 || key[i] as int == 95
  {
    assert forall i :: 0 <= i < |key| ==> key[i] in key;
  }

  /** The value at the first index with the name. */
  ghost predicate ValueIs(env: seq<(string, string)>, name: string, i: nat, value: string) {
    i < |env| && env[i] == (name, value) && forall j :: 0 <= j < i ==> env[j].0 != name
  }

  lemma {:induction false} FirstValueExactly(env: seq<(string, string)>, name: string)
    ensures FirstValue(env, name).None? <==> forall i :: 0 <= i < |env| ==> env[i].0 != name
    ensures FirstValue(env, name).Some? ==> exists i: nat :: ValueIs(env, name, i, FirstValue(env, name).value)
  {
    if env == [] {
    } else {
      FirstValueExactly(env[1..], name);
      assert forall i :: 0 < i < |env| ==> env[i] == env[1..][i - 1];
      if env[0].0 == name {
        assert ValueIs(env, name, 0, env[0].1);
      } else if FirstValue(env[1..], name).Some? {
        var i: nat :| ValueIs(env[1..], name, i, FirstValue(env[1..], name).value);
        assert ValueIs(env, name, i + 1, FirstValue(env, name).value);
      }
    }
  }

  lemma ValueIsFirst(env: seq<(string, string)>, name: string, i: nat, value: string)
    requires ValueIs(env, name, i, value)
    ensures FirstValue(env, name) == Some(value)
  {
    FirstValueExactly(env, name);
    var k: nat :| ValueIs(env, name, k, FirstValue(env, name).value);
    assert env[i].0 == name && env[k].0 == name;
    assert i == k;
  }

  ghost predicate NoneGives(args: seq<string>) {
    forall i :: 0 <= i < |args| ==> FromArg(args[i]).None?
  }

  /** Where the keys of a descriptor come from. The environment variable decides if its first value
      has a normal form; otherwise the first argument that gives a result does, the command's words
      before the arguments; otherwise there are none. */
  lemma FromDescriptorExactly(env: seq<(string, string)>, command: seq<string>, args: seq<string>)
    ensures forall i: nat, value ::
              ValueIs(env, "ENCLAVA_REQUIRED_CONFIG_KEYS", i, value) && Normalize(value).Some? ==>
                FromDescriptor(env, command, args) == Normalize(value)
    ensures (forall i: nat, value ::
               ValueIs(env, "ENCLAVA_REQUIRED_CONFIG_KEYS", i, value) ==> Normalize(value).None?) ==>
              var r := FromDescriptor(env, command, args);
              && (forall i: nat :: FirstAt(command, i) ==> r == FromArg(command[i]))
              && (NoneGives(command) ==> forall j: nat :: FirstAt(args, j) ==> r == FromArg(args[j]))
              && (NoneGives(command) && NoneGives(args) ==> r.None?)
  {
    var name := "ENCLAVA_REQUIRED_CONFIG_KEYS";
    assert name == NAME;
    FirstValueExactly(env, name);
    forall i: nat, value | ValueIs(env, name, i, value) ensures FirstValue(env, name) == Some(value) {
      ValueIsFirst(env, name, i, value);
    }
    ArgumentsInOrder(command, args);
  }

  lemma ArgumentsInOrder(command: seq<string>, args: seq<string>)
    ensures forall i: nat :: FirstAt(command, i) ==> FirstFromArgs(command + args) == FromArg(command[i])
    ensures NoneGives(command) ==>
              forall j: nat :: FirstAt(args, j) ==> FirstFromArgs(command + args) == FromArg(args[j])
    ensures NoneGives(command) && NoneGives(args) ==> FirstFromArgs(command + args).None?
  {
    var all := command + args;
    FirstFromArgsExactly(all);
    forall i: nat | FirstAt(command, i) ensures FirstFromArgs(all) == FromArg(command[i]) {
      assert all[i] == command[i] && forall j :: 0 <= j < i ==> all[j] == command[j];
      assert FirstAt(all, i);
    }
    if NoneGives(command) {
      forall j: nat | FirstAt(args, j) ensures FirstFromArgs(all) == FromArg(args[j]) {
        BehindCommand(command, args, j);
      }
    }
  }

  lemma BehindCommand(command: seq<string>, args: seq<string>, j: nat)
    requires NoneGives(command) && FirstAt(args, j)
    ensures FirstFromArgs(command + args) == FromArg(args[j])
  {
    var all, k := command + args, |command| + j;
    assert all[k] == args[j];
    forall i | 0 <= i < k ensures FromArg(all[i]).None? {
      if i < |command| {
        assert all[i] == command[i];
      } else {
        assert all[i] == args[i - |command|];
      }
    }
    FirstFromArgsAt(all, k);
  }
}
