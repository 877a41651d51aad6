/** The name a lab runs under: the declared one and a slug of the instance, as one DNS label. */
module Instance {
  import opened Bytes
  import opened Paths

  const LABEL_MAX := 63
  const HASH_LEN := 6

  /** `char::to_lowercase`, which may yield several characters. */
  type Lower = char -> string

  predicate IsLowerOrDigit(c: char) { '0' <= c <= '9' || 'a' <= c <= 'z' }

  /** What is used of the library functions: lowering yields no capital letter and leaves small
      letters, digits and hyphens alone; the hash is six hex digits. */
  ghost predicate LowerOk(lower: Lower) {
    forall c ::
      && (forall i | 0 <= i < |lower(c)| :: !('A' <= lower(c)[i] <= 'Z'))
      && (IsLowerOrDigit(c) || c == '-' ==> lower(c) == [c])
  }

  ghost predicate ShortHashOk(hash: Hash) {
    forall s :: |hash(s)| == HASH_LEN && forall i | 0 <= i < HASH_LEN :: IsLowerOrDigit(hash(s)[i])
  }

  function Lowered(id: string, lower: Lower): (s: string) {
    if id == [] then [] else Lowered(id[..|id| - 1], lower) + lower(id[|id| - 1])
  }

  function PushChar(slug: string, c: char): (r: string) {
    if IsLetterOrDigit(c) then slug + [c]
    else if slug != [] && slug[|slug| - 1] != '-' then slug + ['-']
    else slug
  }

  function PushAll(s: string): (slug: string) {
    if s == [] then [] else PushChar(PushAll(s[..|s| - 1]), s[|s| - 1])
  }

  function TrimHyphens(s: string): (r: string)
    ensures |r| <= |s| && r == s[..|r|]
  {
    if s != [] && s[|s| - 1] == '-' then TrimHyphens(s[..|s| - 1]) else s
  }

  function SlugOf(id: string, lower: Lower): (slug: string) { TrimHyphens(PushAll(Lowered(id, lower))) }

  /** What is left for a cut of the slug next to the declared name, two hyphens and the hash. */
  function Room(declared: string): (n: int) { LABEL_MAX - (|declared| + 2 + HASH_LEN) }

  function Shortened(slug: string, room: nat, hash: Hash): (s: string)
    requires room <= |slug|
  {
    TrimHyphens(slug[..room]) + ['-'] + hash(slug)
  }

  function NameFor(declared: string, slug: string, hash: Hash): (r: Option<string>) {
    if slug == [] then None
    else if |declared| + 1 + |slug| <= LABEL_MAX then Some(declared + ['-'] + slug)
    else if Room(declared) <= 0 then None
    else Some(declared + ['-'] + Shortened(slug, Room(declared), hash))
  }

  function EffectiveName(declared: string, id: string, lower: Lower, hash: Hash): (r: Option<string>) {
    NameFor(declared, SlugOf(id, lower), hash)
  }

  method MakeName(declared: string, id: string, lower: Lower, hash: Hash) returns (r: Option<string>)
    ensures r == EffectiveName(declared, id, lower, hash)
  {
    var chars, slug: string := Lowered(id, lower), [];
    for i := 0 to |chars|
      invariant slug == PushAll(chars[..i])
    {
      var c := chars[i];
      assert chars[..i + 1][..i] == chars[..i];
      if IsLetterOrDigit(c) {
        slug := slug + [c];
      } else if slug != [] && slug[|slug| - 1] != '-' {
        slug := slug + ['-'];
      }
    }
    assert chars[..|chars|] == chars;
    slug := TrimHyphens(slug);
    if slug == [] { return None; }
    var full := declared + ['-'] + slug;
    if |full| <= LABEL_MAX { return Some(full); }
    var room := LABEL_MAX - (|declared| + 2 + HASH_LEN);
    if room <= 0 { return None; }
    return Some(declared + ['-'] + (TrimHyphens(slug[..room]) + ['-'] + hash(slug)));
  }

  predicate BelongsTo(name: string, declared: string) {
    name == declared
    || (declared <= name && |declared| + 1 < |name| && name[|declared|] == '-')
  }

  class LabFile {
    var name: string

    constructor (declared: string)
      ensures name == declared
    {
      name := declared;
    }

    /** Run the file under `effective`, if that is its declared name or an instance of it. */
    method Adopt(effective: string) returns (ok: bool)
      modifies this
      ensures ok <==> BelongsTo(effective, old(name))
      ensures name == if ok then effective else old(name)
    {
      ok := BelongsTo(effective, name);
      if ok { name := effective; }
    }
  }

  // The slug.

  /** Small letters, digits and single hyphens, starting with no hyphen. */
  predicate Slugged(s: string) {
    && (forall i | 0 <= i < |s| :: IsLowerOrDigit(s[i]) || s[i] == '-')
    && (s != [] ==> s[0] != '-')
    && (forall i, j | 0 <= i < |s| && 0 <= j < |s| && j == i + 1 :: s[i] != '-' || s[j] != '-')
  }

  /** And ending with none. */
  predicate CleanSlug(s: string) { Slugged(s) && (s != [] ==> s[|s| - 1] != '-') }

  predicate NoCapitals(s: string) { forall i | 0 <= i < |s| :: !('A' <= s[i] <= 'Z') }

  lemma {:induction false} LoweredHasNoCapitals(id: string, lower: Lower)
    requires LowerOk(lower)
    ensures NoCapitals(Lowered(id, lower))
    decreases |id|
  {
    if id != [] { LoweredHasNoCapitals(id[..|id| - 1], lower); }
  }

  lemma {:induction false} PushedIsSlugged(s: string)
    requires NoCapitals(s)
    ensures Slugged(PushAll(s))
    decreases |s|
  {
    if s != [] { PushedIsSlugged(s[..|s| - 1]); }
  }

  lemma {:induction false} TrimmedIsClean(s: string)
    requires Slugged(s)
    ensures CleanSlug(TrimHyphens(s))
    ensures s != [] ==> TrimHyphens(s) != []
    decreases |s|
  {
    if s != [] && s[|s| - 1] == '-' { TrimmedIsClean(s[..|s| - 1]); }
  }

  lemma SlugIsClean(id: string, lower: Lower)
    requires LowerOk(lower)
    ensures CleanSlug(SlugOf(id, lower))
  {
    LoweredHasNoCapitals(id, lower);
    PushedIsSlugged(Lowered(id, lower));
    TrimmedIsClean(PushAll(Lowered(id, lower)));
  }

  lemma {:induction false} SluggedIsLow(s: string, lower: Lower)
    requires LowerOk(lower) && Slugged(s)
    ensures Lowered(s, lower) == s
    decreases |s|
  {
    if s != [] {
      var n := |s| - 1;
      SluggedIsLow(s[..n], lower);
      assert lower(s[n]) == [s[n]];
      assert s == s[..n] + [s[n]];
    }
  }

  lemma SluggedLast(s: string, n: nat)
    requires Slugged(s) && |s| == n + 1
    ensures Slugged(s[..n]) && PushChar(s[..n], s[n]) == s
  {
    assert s == s[..n] + [s[n]];
    if s[n] == '-' {
      assert 0 < n && s[n - 1] != '-';
    }
  }

  lemma {:induction false} SluggedIsPushed(s: string)
    requires Slugged(s)
    ensures PushAll(s) == s
    decreases |s|
  {
    if s != [] {
      var n := |s| - 1;
      SluggedLast(s, n);
      SluggedIsPushed(s[..n]);
    }
  }

  lemma CleanIsOwnSlug(s: string, lower: Lower)
    requires LowerOk(lower) && CleanSlug(s)
    ensures SlugOf(s, lower) == s
  {
    SluggedIsLow(s, lower);
    SluggedIsPushed(s);
  }

  // The name.

  /** A slug shortened to some room is a slug again, and no longer than that room allows. */
  lemma ShortenedIsClean(slug: string, room: nat, hash: Hash)
    requires CleanSlug(slug) && 0 < room <= |slug| && ShortHashOk(hash)
    ensures CleanSlug(Shortened(slug, room, hash)) && |Shortened(slug, room, hash)| <= room + 1 + HASH_LEN
    ensures Shortened(slug, room, hash) != []
  {
    TrimmedIsClean(slug[..room]);
    var cut := TrimHyphens(slug[..room]);
    HyphenJoins(cut, hash(slug));
  }

  lemma HyphenJoins(a: string, b: string)
    requires CleanSlug(a) && a != [] && b != [] && forall i | 0 <= i < |b| :: IsLowerOrDigit(b[i])
    ensures CleanSlug(a + ['-'] + b)
  {
    var s := a + ['-'] + b;
    forall i, j | 0 <= i < |s| && 0 <= j < |s| && j == i + 1 ensures s[i] != '-' || s[j] != '-' {
      if j == |a| { assert s[i] == a[|a| - 1]; }
      else if j > |a| { assert s[j] == b[j - |a| - 1]; }
    }
  }

  lemma JoinIsLabel(declared: string, slug: string)
    requires IsLabel(declared) && CleanSlug(slug) && slug != [] && |declared| + 1 + |slug| <= LABEL_MAX
    ensures IsLabel(declared + ['-'] + slug) && BelongsTo(declared + ['-'] + slug, declared)
  {
    var s := declared + ['-'] + slug;
    assert s[|s| - 1] == slug[|slug| - 1];
    assert forall i | |declared| < i < |s| :: s[i] == slug[i - |declared| - 1];
  }

  /** For every declared label and instance: the name is a label that belongs to the declared one,
      the slug is clean, replacing the instance by its own slug changes nothing, and there is no
      name exactly when the slug is empty or both together cannot be cut to 63. */
  lemma EffectiveNameOk(declared: string, id: string, lower: Lower, hash: Hash)
    requires IsLabel(declared) && LowerOk(lower) && ShortHashOk(hash)
    ensures var r, slug := EffectiveName(declared, id, lower, hash), SlugOf(id, lower);
            && CleanSlug(slug)
            && (r.Some? ==> IsLabel(r.value) && BelongsTo(r.value, declared))
            && (r.None? <==> slug == [] || (LABEL_MAX < |declared| + 1 + |slug| && 55 <= |declared|))
            && EffectiveName(declared, slug, lower, hash) == r
  {
    var slug := SlugOf(id, lower);
    SlugIsClean(id, lower);
    CleanIsOwnSlug(slug, lower);
    if slug != [] {
      if |declared| + 1 + |slug| <= LABEL_MAX {
        JoinIsLabel(declared, slug);
      } else if 0 < Room(declared) {
        ShortenedIsClean(slug, Room(declared), hash);
        JoinIsLabel(declared, Shortened(slug, Room(declared), hash));
      }
    }
  }

  predicate TooLong(declared: string, slug: string) { LABEL_MAX < |declared| + 1 + |slug| && 0 < Room(declared) }

  /** What of a long slug goes into its name. */
  function Cut(declared: string, slug: string): (cut: string)
    requires TooLong(declared, slug)
  {
    TrimHyphens(slug[..Room(declared)])
  }

  /** Two slugs that get the same name though they differ: both are long with the same cut and the
      same short hash, or one of them is long and the other is spelled like its shortened form. */
  predicate Collide(declared: string, a: string, b: string, hash: Hash) {
    if TooLong(declared, a) then
      if TooLong(declared, b) then Cut(declared, a) == Cut(declared, b) && hash(a) == hash(b)
      else b == Shortened(a, Room(declared), hash)
    else TooLong(declared, b) && a == Shortened(b, Room(declared), hash)
  }

  lemma NameEnds(declared: string, a: string, b: string)
    ensures declared + ['-'] + a == declared + ['-'] + b <==> a == b
  {
    var s, t := declared + ['-'] + a, declared + ['-'] + b;
    assert s[|declared| + 1..] == a && t[|declared| + 1..] == b;
  }

  /** Equal shortened slugs have equal hashes at their end, and equal cuts before. */
  lemma ShortenedEqual(declared: string, a: string, b: string, hash: Hash)
    requires ShortHashOk(hash) && TooLong(declared, a) && TooLong(declared, b)
    ensures Shortened(a, Room(declared), hash) == Shortened(b, Room(declared), hash)
            <==> Cut(declared, a) == Cut(declared, b) && hash(a) == hash(b)
  {
    var s, t := Shortened(a, Room(declared), hash), Shortened(b, Room(declared), hash);
    assert s[|s| - HASH_LEN..] == hash(a) && t[|t| - HASH_LEN..] == hash(b);
    assert s[..|s| - HASH_LEN - 1] == Cut(declared, a) && t[..|t| - HASH_LEN - 1] == Cut(declared, b);
  }

  /** The spelling that follows the declared name and its hyphen. */
  function Suffix(declared: string, slug: string, hash: Hash): (s: string) {
    if TooLong(declared, slug) then Shortened(slug, Room(declared), hash) else slug
  }

  /** Exactly when two instances of a lab run under one name: their slugs are the same, or collide. */
  lemma SameNameIff(declared: string, id: string, id': string, lower: Lower, hash: Hash)
    requires ShortHashOk(hash)
    requires EffectiveName(declared, id, lower, hash).Some? && EffectiveName(declared, id', lower, hash).Some?
    ensures EffectiveName(declared, id, lower, hash) == EffectiveName(declared, id', lower, hash)
            <==> SlugOf(id, lower) == SlugOf(id', lower)
                 || Collide(declared, SlugOf(id, lower), SlugOf(id', lower), hash)
  {
    var a, b := SlugOf(id, lower), SlugOf(id', lower);
    NameEnds(declared, Suffix(declared, a, hash), Suffix(declared, b, hash));
    if TooLong(declared, a) && TooLong(declared, b) { ShortenedEqual(declared, a, b, hash); }
  }

  /** Such collisions exist for every long instance, whatever the hash: the instance spelled like its
      shortened slug gets the same name. */
  lemma ShortenedCollides(declared: string, id: string, lower: Lower, hash: Hash)
    requires IsLabel(declared) && LowerOk(lower) && ShortHashOk(hash) && TooLong(declared, SlugOf(id, lower))
    ensures var other := Shortened(SlugOf(id, lower), Room(declared), hash);
            && EffectiveName(declared, other, lower, hash) == EffectiveName(declared, id, lower, hash)
            && !TooLong(declared, SlugOf(other, lower))
  {
    SlugIsClean(id, lower);
    var slug := SlugOf(id, lower);
    ShortenedIsClean(slug, Room(declared), hash);
    CleanIsOwnSlug(Shortened(slug, Room(declared), hash), lower);
  }

  // The slug, described by words.

  /** The runs of ASCII letters and digits. */
  function WordsOf(s: string): (ws: seq<string>) {
    if s == [] then []
    else
      var most, c := s[..|s| - 1], s[|s| - 1];
      var ws := WordsOf(most);
      if !IsLetterOrDigit(c) then ws
      else if ws != [] && IsLetterOrDigit(most[|most| - 1]) then ws[..|ws| - 1] + [ws[|ws| - 1] + [c]]
      else ws + [[c]]
  }

  function Hyphenated(ws: seq<string>): (s: string) {
    if ws == [] then [] else if |ws| == 1 then ws[0] else Hyphenated(ws[..|ws| - 1]) + ['-'] + ws[|ws| - 1]
  }

  /** Whether the last character belongs to a word. */
  predicate InWord(s: string) { s != [] && IsLetterOrDigit(s[|s| - 1]) }

  lemma {:induction false} WordsEnd(s: string)
    ensures InWord(s) ==> WordsOf(s) != []
    ensures WordsOf(s) != [] ==>
              var h := Hyphenated(WordsOf(s)); h != [] && h[|h| - 1] != '-' && WordsOf(s)[|WordsOf(s)| - 1] != []
    decreases |s|
  {
    if s != [] {
      var most, c := s[..|s| - 1], s[|s| - 1];
      WordsEnd(most);
      var ws := WordsOf(most);
      if IsLetterOrDigit(c) {
        if ws != [] && IsLetterOrDigit(most[|most| - 1]) { LongerWord(ws, c); } else { AnotherWord(ws, [c]); }
      }
    }
  }

  lemma LongerWord(ws: seq<string>, c: char)
    requires ws != []
    ensures Hyphenated(ws[..|ws| - 1] + [ws[|ws| - 1] + [c]]) == Hyphenated(ws) + [c]
  {
    var longer := ws[..|ws| - 1] + [ws[|ws| - 1] + [c]];
    if 1 < |ws| { assert longer[..|ws| - 1] == ws[..|ws| - 1]; }
  }

  lemma AnotherWord(ws: seq<string>, word: string)
    ensures Hyphenated(ws + [word]) == if ws == [] then word else Hyphenated(ws) + ['-'] + word
  {
    assert (ws + [word])[..|ws|] == ws;
  }

  lemma {:induction false} PushedIsWords(s: string)
    ensures PushAll(s) == Hyphenated(WordsOf(s)) + if WordsOf(s) != [] && !InWord(s) then ['-'] else []
    decreases |s|
  {
    if s != [] {
      var most, c := s[..|s| - 1], s[|s| - 1];
      PushedIsWords(most);
      WordsEnd(most);
      var ws := WordsOf(most);
      if IsLetterOrDigit(c) {
        if ws != [] && InWord(most) { LongerWord(ws, c); } else { AnotherWord(ws, [c]); }
      }
    }
  }

  /** A slug is the runs of letters and digits of the lowered instance, joined by hyphens. */
  lemma SlugIsWords(id: string, lower: Lower)
    ensures SlugOf(id, lower) == Hyphenated(WordsOf(Lowered(id, lower)))
  {
    var s := Lowered(id, lower);
    PushedIsWords(s);
    WordsEnd(s);
    var h := Hyphenated(WordsOf(s));
    assert h + [] == h;
    TrimOne(h);
  }

  lemma TrimOne(h: string)
    requires h == [] || h[|h| - 1] != '-'
    ensures TrimHyphens(h) == h && TrimHyphens(h + ['-']) == h
  {
    assert (h + ['-'])[..|h|] == h;
    assert TrimHyphens(h + ['-']) == TrimHyphens((h + ['-'])[..|h|]);
  }

  /** A lab belongs to a declared name exactly if it is that name, or that name, a hyphen and more. */
  lemma BelongsIff(name: string, declared: string)
    ensures BelongsTo(name, declared) <==>
              name == declared || exists more: string :: more != [] && name == declared + ['-'] + more
  {
    if BelongsTo(name, declared) && name != declared {
      var more := name[|declared| + 1..];
      assert more != [] && name == declared + ['-'] + more;
    }
  }

  /** The name of a long instance uses all the room there is: 63 characters, or 62 where the cut fell
      behind a hyphen; a prefix of the slug, then its hash. */
  lemma LongName(declared: string, slug: string, hash: Hash)
    requires CleanSlug(slug) && ShortHashOk(hash) && TooLong(declared, slug)
    ensures var room := 55 - |declared|;
            var cut := if slug[room - 1] == '-' then slug[..room - 1] else slug[..room];
            && NameFor(declared, slug, hash) == Some(declared + ['-'] + (cut + ['-'] + hash(slug)))
            && |NameFor(declared, slug, hash).value| == if slug[room - 1] == '-' then 62 else 63
  {
    var room := Room(declared);
    var head := slug[..room];
    assert head[room - 1] == slug[room - 1];
    if slug[room - 1] == '-' {
      assert 1 < room && slug[room - 2] != '-';
      assert head == slug[..room - 1] + ['-'];
      TrimOne(slug[..room - 1]);
    }
  }
}
