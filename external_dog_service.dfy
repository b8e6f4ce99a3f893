/** The URL handling of ExternalDogService.cs: turning a dog.ceo image URL into a DogApiDto, the
    clamp on the requested count, and the loop that maps every returned URL.

    The HTTP calls and JSON decoding are not modelled: the decoded `message` field is an input.
    `System.Uri` is not modelled either: `segmentsOf(url)` stands for `new Uri(url).Segments`,
    with `None` when the constructor throws. */
module ExternalDog {
  import opened Wrappers
  import opened Seqs
  import opened Dtos

  /** `Char.IsWhiteSpace`: the Unicode space separators, line and paragraph separators, and
      the control characters U+0009 to U+000D, U+0085. */
  predicate IsWhiteSpace(c: char): (b: bool)
    ensures c == ' ' || c == '\t' || c == '\n' || c == '\r' ==> b
    ensures b ==> c < '!' || c >= '\U{0085}'
  {
    || ('\U{0009}' <= c <= '\U{000D}')
    || c == '\U{0020}' || c == '\U{0085}' || c == '\U{00A0}' || c == '\U{1680}'
    || ('\U{2000}' <= c <= '\U{200A}')
    || c == '\U{2028}' || c == '\U{2029}' || c == '\U{202F}' || c == '\U{205F}'
    || c == '\U{3000}'
  }

  /** `string.IsNullOrWhiteSpace` on a non-null string: empty, or whitespace only. */
  predicate IsBlank(s: string): (b: bool)
    ensures s == "" ==> b
    ensures (exists i :: 0 <= i < |s| && '!' <= s[i] <= '~') ==> !b
  {
    forall i :: 0 <= i < |s| ==> IsWhiteSpace(s[i])
  }

  /** `s.TrimStart(c)`: drop every leading `c`. */
  function TrimStart(s: string, c: char): (r: string)
    ensures |r| <= |s|
    ensures forall i :: 0 <= i < |s| - |r| ==> s[i] == c
    ensures r == [] || r[0] != c
  {
    if |s| > 0 && s[0] == c then TrimStart(s[1..], c) else s
  }

  /** What TrimStart keeps is the rest of the text after the cut. */
  lemma {:induction false} TrimStartKeepsSuffix(s: string, c: char)
    ensures TrimStart(s, c) == s[|s| - |TrimStart(s, c)|..]
  {
    if |s| > 0 && s[0] == c {
      TrimStartKeepsSuffix(s[1..], c);
      assert s[1..][|s| - 1 - |TrimStart(s, c)|..] == s[|s| - |TrimStart(s, c)|..];
    }
  }

  /** `s.TrimEnd(c)`: drop every trailing `c`. */
  function TrimEnd(s: string, c: char): (r: string)
    ensures |r| <= |s|
    ensures forall i :: |r| <= i < |s| ==> s[i] == c
    ensures r == [] || r[|r| - 1] != c
  {
    if |s| > 0 && s[|s| - 1] == c then TrimEnd(s[..|s| - 1], c) else s
  }

  /** What TrimEnd keeps is the start of the text before the cut. */
  lemma {:induction false} TrimEndKeepsPrefix(s: string, c: char)
    ensures TrimEnd(s, c) == s[..|TrimEnd(s, c)|]
  {
    if |s| > 0 && s[|s| - 1] == c {
      TrimEndKeepsPrefix(s[..|s| - 1], c);
      assert s[..|s| - 1][..|TrimEnd(s, c)|] == s[..|TrimEnd(s, c)|];
    }
  }

  /** `s.Trim(c)`: drop every leading and trailing `c`. */
  function Trim(s: string, c: char): (r: string)
    ensures |r| <= |s|
    ensures r == [] || (r[0] != c && r[|r| - 1] != c)
  {
    TrimEndKeepsPrefix(TrimStart(s, c), c);
    TrimEnd(TrimStart(s, c), c)
  }

  /** Trimming twice is trimming once. */
  lemma TrimIdempotent(s: string, c: char)
    ensures Trim(Trim(s, c), c) == Trim(s, c)
  {
    var r := Trim(s, c);
    assert TrimStart(r, c) == r;
    assert TrimEnd(r, c) == r;
  }

  /** A text with no `c` in it is left alone by trimming. */
  lemma TrimWithout(s: string, c: char)
    requires c !in s
    ensures Trim(s, c) == s
  {
    assert |s| > 0 ==> s[0] in s && s[|s| - 1] in s;
  }

  /** Trimming `s + [c]`, for a text `s` without `c`, gives `s`: a path segment loses its
      trailing '/'. */
  lemma TrimTrailing(s: string, c: char)
    requires c !in s
    ensures Trim(s + [c], c) == s
  {
    var t := s + [c];
    if s == [] {
      assert TrimStart(t, c) == TrimStart([], c);
    } else {
      assert t[0] == s[0] && s[0] in s;
      assert TrimStart(t, c) == t;
      assert t[..|t| - 1] == s;
      assert s[|s| - 1] in s;
      assert TrimEnd(s, c) == s;
      assert TrimEnd(t, c) == TrimEnd(s, c);
    }
  }

  /** `char.ToUpperInvariant` on the ASCII letters, which is all a URL path holds: System.Uri
      percent-escapes every non-ASCII character of a path. */
  function AsciiUpper(c: char): char {
    if 'a' <= c <= 'z' then (c as int - 32) as char else c
  }

  /** `a.Equals(b, StringComparison.OrdinalIgnoreCase)`. */
  predicate EqualsIgnoreCase(a: string, b: string): (r: bool)
    ensures a == b ==> r
    ensures r ==> |a| == |b|
  {
    |a| == |b| && forall i :: 0 <= i < |a| ==> AsciiUpper(a[i]) == AsciiUpper(b[i])
  }

  /** Equality ignoring case is an equivalence: reflexive, symmetric and transitive. */
  lemma EqualsIgnoreCaseIsEquivalence(a: string, b: string, c: string)
    ensures EqualsIgnoreCase(a, a)
    ensures EqualsIgnoreCase(a, b) ==> EqualsIgnoreCase(b, a)
    ensures EqualsIgnoreCase(a, b) && EqualsIgnoreCase(b, c) ==> EqualsIgnoreCase(a, c)
  {
  }

  /** The segment that announces the breed in a dog.ceo image path. */
  predicate IsBreedsMarker(p: string) {
    EqualsIgnoreCase(p, "breeds")
  }

  /** The marker is found in any case, and only as the whole word. */
  lemma BreedsMarkerSpellings()
    ensures IsBreedsMarker("breeds") && IsBreedsMarker("BREEDS") && IsBreedsMarker("Breeds")
    ensures !IsBreedsMarker("breed") && !IsBreedsMarker("breedsx") && !IsBreedsMarker("")
  {
    assert AsciiUpper('b') == AsciiUpper('B');
    assert "breed" != "breeds";
  }

  /** `u.Segments.Select(s => s.Trim('/'))`: the path segments without their slashes. */
  function SegmentParts(segments: seq<string>): (parts: seq<string>)
    ensures |parts| == |segments|
    ensures forall i :: 0 <= i < |parts| ==> parts[i] == Trim(segments[i], '/')
  {
    seq(|segments|, i requires 0 <= i < |segments| => Trim(segments[i], '/'))
  }

  /** The path segment after "breeds", split on '-' with empty pieces dropped: the first piece
      is the breed, the rest joined by single spaces the sub-breed. A segment with no piece
      leaves `dto` as it is; a single piece sets the breed only. */
  function ReadBreed(dto: DogApiDto, raw: string): (r: DogApiDto)
    ensures r.photoLink == dto.photoLink && r.source == dto.source
    ensures var b := SplitNonEmpty(raw, '-');
      && (b == [] ==> r == dto)
      && (|b| == 1 ==> r == dto.(typeOfDog := b[0]))
      && (|b| > 1 ==> r == dto.(typeOfDog := b[0], dogVariety := Join(" ", b[1..])))
  {
    var b := SplitNonEmpty(raw, '-');
    if |b| > 0 then
      var dto := dto.(typeOfDog := b[0]);
      if |b| > 1 then dto.(dogVariety := Join(" ", b[1..])) else dto
    else dto
  }

  /** ParseDto: the photo link is the URL (the empty string for a null one) and the provider is
      dog.ceo; the breed fields are read from the path segment after the first "breeds" segment
      (compared ignoring case, each segment stripped of its '/'). A blank URL, a URL System.Uri
      rejects (an exception the source catches and ignores), a path without "breeds" or with
      nothing after it leaves both breed fields empty. */
  function ParseDto(url: Option<string>, segmentsOf: string -> Option<seq<string>>)
    : (dto: DogApiDto)
    ensures dto.photoLink == url.GetOr("") && dto.source == DogCeo
    ensures url.None? || IsBlank(url.value) || segmentsOf(url.value).None? ==>
      dto.typeOfDog == "" && dto.dogVariety == ""
    ensures '-' !in dto.typeOfDog
    ensures dto.dogVariety != "" ==> dto.typeOfDog != ""
  {
    var dto := NewDogApiDto().(photoLink := url.GetOr(""), source := DogCeo);
    match url
    case None => dto
    case Some(url) =>
      if IsBlank(url) then dto
      else match segmentsOf(url)
        case None => dto
        case Some(segments) =>
          var parts := SegmentParts(segments);
          match FirstIndex(parts, IsBreedsMarker)
          case None => dto
          case Some(idx) =>
            if idx + 1 < |parts| then ReadBreed(dto, parts[idx + 1]) else dto
  }

  /** ParseDto reads the segment after the first "breeds" marker, when there is one. */
  lemma ParseDtoAt(url: string, segmentsOf: string -> Option<seq<string>>, k: nat)
    requires !IsBlank(url) && segmentsOf(url).Some?
    requires var parts := SegmentParts(segmentsOf(url).value);
      FirstIndex(parts, IsBreedsMarker) == Some(k) && k + 1 < |parts|
    ensures ParseDto(Some(url), segmentsOf)
      == ReadBreed(DogApiDto(url, "", "", DogCeo), SegmentParts(segmentsOf(url).value)[k + 1])
  {
  }

  /** Without a "breeds" part, or with "breeds" as the last part, ParseDto leaves both breed
      fields empty. */
  lemma ParseDtoNoBreedPart(url: string, segmentsOf: string -> Option<seq<string>>)
    requires !IsBlank(url) && segmentsOf(url).Some?
    requires var parts := SegmentParts(segmentsOf(url).value);
      var idx := FirstIndex(parts, IsBreedsMarker);
      idx.None? || idx.value + 1 == |parts|
    ensures ParseDto(Some(url), segmentsOf) == DogApiDto(url, "", "", DogCeo)
  {
  }

  /** A breed path segment in the dog.ceo format: the breed, then each sub-breed word, joined
      by '-'. */
  function BreedSegment(breed: string, subBreed: seq<string>): string {
    Join("-", [breed] + subBreed)
  }

  /** A word of a breed name: non-empty, no '-', no '/', no space. */
  predicate IsWord(w: string) {
    w != "" && '-' !in w && '/' !in w && ' ' !in w
  }

  /** Joining pieces that lack `c` with a separator that lacks `c` gives a text that lacks `c`. */
  lemma {:induction false} NoCharInJoin(parts: seq<string>, c: char, sep: string)
    requires c !in sep
    requires forall i :: 0 <= i < |parts| ==> c !in parts[i]
    ensures c !in Join(sep, parts)
  {
    if |parts| > 1 {
      NoCharInJoin(parts[1..], c, sep);
    }
  }

  /** Splitting a breed segment gives back its words: the breed, and the sub-breed joined by
      spaces, which splits back into its words. */
  lemma ReadBreedSegment(dto: DogApiDto, breed: string, subBreed: seq<string>)
    requires IsWord(breed)
    requires forall i :: 0 <= i < |subBreed| ==> IsWord(subBreed[i])
    ensures var r := ReadBreed(dto, BreedSegment(breed, subBreed));
      && r.typeOfDog == breed
      && (subBreed == [] ==> r.dogVariety == dto.dogVariety)
      && (subBreed != [] ==> r.dogVariety == Join(" ", subBreed)
                             && Split(r.dogVariety, ' ') == subBreed)
  {
    var words := [breed] + subBreed;
    assert forall i :: 0 <= i < |words| ==> IsWord(words[i]);
    SplitJoin(words, '-');
    assert Split(BreedSegment(breed, subBreed), '-') == words;
    assert SplitNonEmpty(BreedSegment(breed, subBreed), '-') == words;
    assert words[1..] == subBreed;
    if subBreed != [] {
      SplitJoin(subBreed, ' ');
    }
  }

  /** The dog.ceo image path segments: `before`, then "breeds/", then the breed segment with
      its '/', then `after`. */
  function ImagePath(before: seq<string>, segment: string, after: seq<string>): seq<string> {
    before + ["breeds/", segment + "/"] + after
  }

  /** The "breeds/" segment trims to the marker. */
  lemma MarkerTrims(before: seq<string>, segment: string, after: seq<string>)
    ensures var parts := SegmentParts(ImagePath(before, segment, after));
      |before| + 1 < |parts| && IsBreedsMarker(parts[|before|])
  {
    var parts := SegmentParts(ImagePath(before, segment, after));
    assert parts[|before|] == Trim("breeds/", '/');
    assert Trim("breeds/", '/') == "breeds";
  }

  /** The breed segment loses only its trailing '/'. */
  lemma BreedSegmentTrims(before: seq<string>, segment: string, after: seq<string>)
    requires '/' !in segment
    ensures var parts := SegmentParts(ImagePath(before, segment, after));
      |before| + 1 < |parts| && parts[|before| + 1] == segment
  {
    var segments := ImagePath(before, segment, after);
    assert segments[|before| + 1] == segment + "/";
    TrimTrailing(segment, '/');
  }

  /** The segments of `before` keep their place. */
  lemma BeforeTrims(before: seq<string>, segment: string, after: seq<string>)
    ensures var parts := SegmentParts(ImagePath(before, segment, after));
      forall j :: 0 <= j < |before| ==> parts[j] == Trim(before[j], '/')
  {
    var segments := ImagePath(before, segment, after);
    assert forall j :: 0 <= j < |before| ==> segments[j] == before[j];
  }

  /** With no "breeds" among `before`, the first "breeds" segment of an image path is the one at
      `|before|`, and the next one trims to the breed segment. */
  lemma FindsBreedsMarker(before: seq<string>, segment: string, after: seq<string>)
    requires forall i :: 0 <= i < |before| ==> !IsBreedsMarker(Trim(before[i], '/'))
    requires '/' !in segment
    ensures var parts := SegmentParts(ImagePath(before, segment, after));
      && FirstIndex(parts, IsBreedsMarker) == Some(|before|)
      && |before| + 1 < |parts| && parts[|before| + 1] == segment
  {
    MarkerTrims(before, segment, after);
    BreedSegmentTrims(before, segment, after);
    BeforeTrims(before, segment, after);
    FirstIndexAt(SegmentParts(ImagePath(before, segment, after)), IsBreedsMarker, |before|);
  }

  /** A breed segment holds no '/', so it is a single path segment. */
  lemma BreedSegmentIsOneSegment(breed: string, subBreed: seq<string>)
    requires IsWord(breed)
    requires forall i :: 0 <= i < |subBreed| ==> IsWord(subBreed[i])
    ensures '/' !in BreedSegment(breed, subBreed)
  {
    var words := [breed] + subBreed;
    assert forall i :: 0 <= i < |words| ==> IsWord(words[i]);
    NoCharInJoin(words, '/', "-");
  }

  /** ReadBreed on a breed segment, starting from the record ParseDto starts from. */
  lemma BreedSegmentReads(url: string, breed: string, subBreed: seq<string>)
    requires IsWord(breed)
    requires forall i :: 0 <= i < |subBreed| ==> IsWord(subBreed[i])
    ensures ReadBreed(DogApiDto(url, "", "", DogCeo), BreedSegment(breed, subBreed))
      == DogApiDto(url, breed, Join(" ", subBreed), DogCeo)
  {
    var dto := DogApiDto(url, "", "", DogCeo);
    ReadBreedSegment(dto, breed, subBreed);
    var r := ReadBreed(dto, BreedSegment(breed, subBreed));
    if subBreed == [] {
      assert r.dogVariety == "" == Join(" ", subBreed);
    }
    assert r.photoLink == url && r.source == DogCeo;
  }

  /** ParseDto on an image path reads its breed segment. */
  lemma ParseDtoFindsSegment(
    url: string, segmentsOf: string -> Option<seq<string>>,
    before: seq<string>, segment: string, after: seq<string>)
    requires !IsBlank(url)
    requires segmentsOf(url) == Some(ImagePath(before, segment, after))
    requires forall i :: 0 <= i < |before| ==> !IsBreedsMarker(Trim(before[i], '/'))
    requires '/' !in segment
    ensures ParseDto(Some(url), segmentsOf) == ReadBreed(DogApiDto(url, "", "", DogCeo), segment)
  {
    FindsBreedsMarker(before, segment, after);
    ParseDtoAt(url, segmentsOf, |before|);
  }

  /** Round trip from the dog.ceo image URL format: when the first "breeds" segment is
      followed by a breed segment, ParseDto gives back the breed and the sub-breed words
      joined by spaces. */
  lemma ParseDtoReadsBreedSegment(
    url: string, segmentsOf: string -> Option<seq<string>>,
    before: seq<string>, breed: string, subBreed: seq<string>, after: seq<string>)
    requires !IsBlank(url)
    requires segmentsOf(url) == Some(ImagePath(before, BreedSegment(breed, subBreed), after))
    requires forall i :: 0 <= i < |before| ==> !IsBreedsMarker(Trim(before[i], '/'))
    requires IsWord(breed)
    requires forall i :: 0 <= i < |subBreed| ==> IsWord(subBreed[i])
    ensures ParseDto(Some(url), segmentsOf)
      == DogApiDto(url, breed, Join(" ", subBreed), DogCeo)
  {
    BreedSegmentIsOneSegment(breed, subBreed);
    BreedSegmentReads(url, breed, subBreed);
    ParseDtoFindsSegment(url, segmentsOf, before, BreedSegment(breed, subBreed), after);
  }

  /** The example image URL of the dog.ceo documentation, an Afghan hound, written as host and
      path. */
  const HoundAfghanUrl: string := "https://images.dog.ceo/" + "breeds/hound-afghan/n02088094_1003.jpg"

  /** The example URL gives breed "hound" and sub-breed "afghan". */
  lemma HoundAfghan(segmentsOf: string -> Option<seq<string>>)
    requires segmentsOf(HoundAfghanUrl) == Some(["/", "breeds/", "hound-afghan/", "n02088094_1003.jpg"])
    ensures ParseDto(Some(HoundAfghanUrl), segmentsOf) == DogApiDto(HoundAfghanUrl, "hound", "afghan", "dog.ceo")
  {
    assert HoundAfghanUrl[0] == 'h';
    assert Trim("/", '/') == "" by {
      assert TrimStart("/", '/') == TrimStart([], '/');
    }
    assert Join("-", ["hound", "afghan"]) == "hound-afghan" by {
      assert Join("-", ["afghan"]) == "afghan";
    }
    assert Join(" ", ["afghan"]) == "afghan";
    assert IsWord("hound") && IsWord("afghan");
    assert ["hound"] + ["afghan"] == ["hound", "afghan"];
    assert BreedSegment("hound", ["afghan"]) + "/" == "hound-afghan/";
    assert ImagePath(["/"], BreedSegment("hound", ["afghan"]), ["n02088094_1003.jpg"])
      == ["/", "breeds/", "hound-afghan/", "n02088094_1003.jpg"];
    ParseDtoReadsBreedSegment(HoundAfghanUrl, segmentsOf, ["/"], "hound", ["afghan"], ["n02088094_1003.jpg"]);
  }

  /** The `count < 1` guard of GetRandomManyAsync. */
  function ClampCount(count: int): (n: int)
    ensures n >= 1
    ensures count >= 1 ==> n == count
    ensures count < 1 ==> n == 1
  {
    if count < 1 then 1 else count
  }

  /** The `foreach` of GetRandomManyAsync that adds one converted item per input item to a
      fresh list. It is generic in the conversion (ParseDto there), so that the loop's proof
      needs nothing of what the conversion computes. */
  method AddEach<A, B>(items: seq<A>, convert: A -> B) returns (list: seq<B>)
    ensures |list| == |items|
    ensures forall i :: 0 <= i < |items| ==> list[i] == convert(items[i])
  {
    list := [];
    for i := 0 to |items|
      invariant |list| == i
      invariant forall j :: 0 <= j < i ==> list[j] == convert(items[j])
    {
      list := list + [convert(items[i])];
    }
  }

  /** GetRandomAsync after the HTTP call: a missing `message` is read as the empty string. */
  function GetRandom(message: Option<string>, segmentsOf: string -> Option<seq<string>>)
    : (dto: DogApiDto)
    ensures message.None? ==> dto == NewDogApiDto()
    ensures message.Some? ==> dto == ParseDto(message, segmentsOf)
  {
    ParseDto(Some(message.GetOr("")), segmentsOf)
  }

  /** GetRandomManyAsync: the count actually requested (at least 1) and the DTOs built from the
      `message` array of the answer, an absent array giving an empty list. `fetch(n)` stands for
      the decoded answer to the request for `n` images. */
  method GetRandomMany(
    count: int,
    fetch: int -> Option<seq<Option<string>>>,
    segmentsOf: string -> Option<seq<string>>)
    returns (requested: int, list: seq<DogApiDto>)
    ensures requested == ClampCount(count)
    ensures var urls := fetch(requested).GetOr([]);
      |list| == |urls| && forall i :: 0 <= i < |urls| ==> list[i] == ParseDto(urls[i], segmentsOf)
  {
    requested := count;
    if requested < 1 {
      requested := 1;
    }
    var urls := fetch(requested).GetOr([]);
    list := AddEach(urls, (url: Option<string>) => ParseDto(url, segmentsOf));
  }
}
