/**
 * Locale date-pattern helpers used by the questionnaire date widgets
 * (utilities/MoreLocalDates.kt): the separator of a locale pattern, the fixed-width
 * pattern derived from it, and the four-digit-year gate on top of the platform parser.
 */
module MoreLocalDates {
  import opened Wrappers
  import opened JavaTime

  // ----------------------------------------------------------------------------------
  // Characters

  /** `Character.isLetter`, on the ASCII letters. */
  predicate IsLetter(c: char) {
    'a' <= c <= 'z' || 'A' <= c <= 'Z'
  }

  /** One character of `String.lowercase()`, on ASCII. */
  function Lower(c: char): (r: char)
    ensures !('A' <= r <= 'Z')
    ensures !IsLetter(c) ==> r == c
    ensures IsLetter(r) == IsLetter(c)
  {
    if 'A' <= c <= 'Z' then (c as int + 32) as char else c
  }

  function Lowercase(s: string): string {
    seq(|s|, i requires 0 <= i < |s| => Lower(s[i]))
  }

  /** `StringBuilder.contains(pat)`: `pat` occurs somewhere in `s`. */
  predicate Contains(s: string, pat: string)
    decreases |s|
  {
    pat <= s || (s != [] && Contains(s[1..], pat))
  }

  // ----------------------------------------------------------------------------------
  // getDateSeparator

  /** The non-letters of `s`, in order (`filterNot { isLetter(it) }`). */
  function NonLetters(s: string): string {
    if s == [] then []
    else if IsLetter(s[0]) then NonLetters(s[1..])
    else [s[0]] + NonLetters(s[1..])
  }

  lemma {:induction false} NonLettersFirst(s: string)
    ensures NonLetters(s) == [] <==> forall k :: 0 <= k < |s| ==> IsLetter(s[k])
    ensures NonLetters(s) != [] ==>
      exists k :: 0 <= k < |s| && s[k] == NonLetters(s)[0] && !IsLetter(s[k]) &&
        forall j :: 0 <= j < k ==> IsLetter(s[j])
  {
    if s != [] {
      NonLettersFirst(s[1..]);
      if IsLetter(s[0]) {
        if NonLetters(s) != [] {
          var k :| 0 <= k < |s[1..]| && s[1..][k] == NonLetters(s[1..])[0] && !IsLetter(s[1..][k]) &&
            forall j :: 0 <= j < k ==> IsLetter(s[1..][j]);
          assert s[k + 1] == NonLetters(s)[0];
          assert forall j :: 0 <= j < k + 1 ==> IsLetter(s[j]) by {
            forall j | 0 <= j < k + 1 ensures IsLetter(s[j]) {
              if j > 0 { assert s[j] == s[1..][j - 1]; }
            }
          }
        } else {
          forall k | 0 <= k < |s| ensures IsLetter(s[k]) {
            if k > 0 { assert s[k] == s[1..][k - 1]; }
          }
        }
      }
    }
  }

  /**
   * The separator of a locale date pattern: its first character that is not a letter.
   * `None` stands for the NoSuchElementException that `first()` raises when every
   * character is a letter.
   */
  function DateSeparator(localeDatePattern: string): (r: Option<char>)
    ensures r.None? <==> forall k :: 0 <= k < |localeDatePattern| ==> IsLetter(localeDatePattern[k])
    ensures r.Some? ==> !IsLetter(r.value)
    ensures r.Some? ==>
      exists k :: 0 <= k < |localeDatePattern| && localeDatePattern[k] == r.value &&
        forall j :: 0 <= j < k ==> IsLetter(localeDatePattern[j])
  {
    NonLettersFirst(localeDatePattern);
    var nonLetters := NonLetters(localeDatePattern);
    if nonLetters == [] then None else Some(nonLetters[0])
  }

  // ----------------------------------------------------------------------------------
  // generateAcceptableDateFormat

  /** The letters that name a date field once lower-cased: day, month and year. */
  predicate IsFieldLetter(l: char) {
    l == 'd' || l == 'm' || l == 'y'
  }

  /** The fixed-width block written for a field letter. */
  function Block(l: char): string {
    if l == 'd' then "dd" else if l == 'm' then "MM" else "yyyy"
  }

  /** The character a block is made of. */
  function BlockChar(l: char): char {
    if l == 'm' then 'M' else l
  }

  /** The fields that have their block once `c` has been read. */
  function SeenAfter(c: char, seen: set<char>): set<char> {
    if IsFieldLetter(c) then seen + {c} else seen
  }

  /** The field letters that occur in `p`, case-insensitively. */
  function Fields(p: string): set<char>
    decreases |p|
  {
    if p == [] then {} else SeenAfter(Lower(p[0]), {}) + Fields(p[1..])
  }

  /** The pattern names field `l` (in either case). */
  predicate HasField(p: string, l: char) {
    l in Fields(p)
  }

  /**
   * What one lower-cased pattern character `c` writes when the fields in `seen` already
   * have their block: a field letter writes its block the first time its field is met,
   * the separator writes itself, anything else nothing.
   */
  function Piece(c: char, sep: char, seen: set<char>): string {
    if IsFieldLetter(c) then (if c in seen then [] else Block(c))
    else if c == sep then [sep]
    else []
  }

  /** The pattern written for `p`, character by character, from the fields in `seen`. */
  function Render(p: string, sep: char, seen: set<char>): string
    decreases |p|
  {
    if p == [] then []
    else Piece(Lower(p[0]), sep, seen) + Render(p[1..], sep, SeenAfter(Lower(p[0]), seen))
  }

  /** The acceptable date format for pattern `p` and separator `sep`. */
  function AcceptableFormat(p: string, sep: char): string {
    Render(p, sep, {})
  }

  /** The fields whose block `format` already holds, as the builder's `contains` tests see them. */
  function Written(format: string): set<char> {
    (if Contains(format, "dd") then {'d'} else {}) +
    (if Contains(format, "MM") then {'m'} else {}) +
    (if Contains(format, "yyyy") then {'y'} else {})
  }

  lemma {:induction false} ContainsAtEnd(s: string, pat: string)
    ensures Contains(s + pat, pat)
    decreases |s|
  {
    if s != [] {
      assert (s + pat)[1..] == s[1..] + pat;
      ContainsAtEnd(s[1..], pat);
    }
  }

  /** An occurrence of `pat` starts with `pat[0]`. */
  lemma {:induction false} ContainsFirst(s: string, pat: string)
    requires |pat| > 0 && Contains(s, pat)
    ensures pat[0] in s
    decreases |s|
  {
    if !(pat <= s) {
      ContainsFirst(s[1..], pat);
    }
  }

  /** An occurrence in `s` is still one in `s + x`. */
  lemma {:induction false} ContainsExtend(s: string, x: string, pat: string)
    requires Contains(s, pat)
    ensures Contains(s + x, pat)
    decreases |s|
  {
    if pat <= s {
      assert pat <= s + x;
    } else {
      assert (s + x)[1..] == s[1..] + x;
      ContainsExtend(s[1..], x, pat);
    }
  }

  /** Appending text that cannot start `pat` leaves `Contains(_, pat)` as it was. */
  lemma ContainsAppend(s: string, x: string, pat: string)
    requires |pat| > 0 && pat[0] !in x
    requires Contains(s, pat) || pat[0] !in s
    ensures Contains(s + x, pat) == Contains(s, pat)
    ensures Contains(s + x, pat) || pat[0] !in s + x
  {
    if Contains(s, pat) {
      ContainsExtend(s, x, pat);
    } else if Contains(s + x, pat) {
      ContainsFirst(s + x, pat);
    }
  }

  /** The builder holds each block it has started, whole: what `contains` tests relies on. */
  predicate BlocksWhole(format: string) {
    && (Contains(format, "dd") || 'd' !in format)
    && (Contains(format, "MM") || 'M' !in format)
    && (Contains(format, "yyyy") || 'y' !in format)
  }

  /** One step of the builder loop appends the piece of `c` and records its field. */
  lemma WrittenStep(format: string, c: char, sep: char)
    requires BlocksWhole(format)
    requires !('A' <= c <= 'Z')
    ensures BlocksWhole(format + Piece(c, sep, Written(format)))
    ensures Written(format + Piece(c, sep, Written(format))) == SeenAfter(c, Written(format))
  {
    var seen := Written(format);
    var x := Piece(c, sep, seen);
    if IsFieldLetter(c) && c in seen {
      assert format + x == format;
    } else if IsFieldLetter(c) {
      var b := Block(c);
      assert x == b;
      ContainsAtEnd(format, b);
      if c != 'd' { ContainsAppend(format, b, "dd"); }
      if c != 'm' { ContainsAppend(format, b, "MM"); }
      if c != 'y' { ContainsAppend(format, b, "yyyy"); }
    } else if c == sep {
      ContainsAppend(format, [sep], "dd");
      ContainsAppend(format, [sep], "MM");
      ContainsAppend(format, [sep], "yyyy");
    } else {
      assert format + x == format;
    }
  }

  /**
   * The builder loop: each character of the lower-cased pattern appends "dd", "MM" or
   * "yyyy" unless the builder already contains that block, appends the separator when it
   * is the separator, and is dropped otherwise.
   */
  method GenerateAcceptableDateFormat(datePattern: string, separator: char) returns (format: string)
    ensures format == AcceptableFormat(datePattern, separator)
  {
    var lowered := Lowercase(datePattern);
    format := "";
    var i := 0;
    while i < |lowered|
      invariant 0 <= i <= |lowered|
      invariant format + Render(datePattern[i..], separator, Written(format)) ==
                AcceptableFormat(datePattern, separator)
      invariant BlocksWhole(format)
    {
      var c := lowered[i];
      ghost var before := format;
      StepKeepsInvariant(datePattern, i, separator, before);
      if c == 'd' {
        if !Contains(format, "dd") {
          format := format + "dd";
        }
      } else if c == 'm' {
        if !Contains(format, "MM") {
          format := format + "MM";
        }
      } else if c == 'y' {
        if !Contains(format, "yyyy") {
          format := format + "yyyy";
        }
      } else if c == separator {
        format := format + [separator];
      }
      assert format == before + Piece(c, separator, Written(before));
      i := i + 1;
    }
  }

  /** One turn of the builder loop keeps its invariant. */
  lemma StepKeepsInvariant(p: string, i: nat, sep: char, before: string)
    requires i < |p| && BlocksWhole(before)
    requires before + Render(p[i..], sep, Written(before)) == AcceptableFormat(p, sep)
    ensures var after := before + Piece(Lower(p[i]), sep, Written(before));
      && BlocksWhole(after)
      && after + Render(p[i + 1..], sep, Written(after)) == AcceptableFormat(p, sep)
  {
    var c := Lower(p[i]);
    var piece := Piece(c, sep, Written(before));
    WrittenStep(before, c, sep);
    RenderStep(p, i, sep, Written(before));
    var rest := Render(p[i + 1..], sep, SeenAfter(c, Written(before)));
    assert (before + piece) + rest == before + (piece + rest);
  }

  lemma RenderStep(p: string, i: nat, sep: char, seen: set<char>)
    requires i < |p|
    ensures Render(p[i..], sep, seen) ==
            Piece(Lower(p[i]), sep, seen) + Render(p[i + 1..], sep, SeenAfter(Lower(p[i]), seen))
  {
    assert p[i..][0] == p[i] && p[i..][1..] == p[i + 1..];
  }

  // ----------------------------------------------------------------------------------
  // Properties of the acceptable date format

  /** The length of the block field `l` still contributes to the output of `p`. */
  function Fresh(p: string, seen: set<char>, l: char): nat {
    if l !in seen && HasField(p, l) then |Block(l)| else 0
  }

  lemma BlockShape(l: char)
    requires IsFieldLetter(l)
    ensures |Block(l)| > 0 && Block(l)[0] == BlockChar(l)
    ensures forall x :: x in Block(l) ==> x == BlockChar(l) && Lower(x) == l
    ensures multiset(Block(l))[BlockChar(l)] == |Block(l)|
    ensures forall x :: x != BlockChar(l) ==> multiset(Block(l))[x] == 0
  {
    BlockLetters(l);
    if l == 'd' {
      assert Block(l) == ['d'] + ['d'];
    } else if l == 'm' {
      assert Block(l) == ['M'] + ['M'];
    } else {
      assert Block(l) == ['y'] + ['y'] + ['y'] + ['y'];
    }
  }

  /** A block's characters all read back, case-insensitively, as its field letter. */
  lemma BlockLetters(l: char)
    requires IsFieldLetter(l)
    ensures |Block(l)| > 0 && Block(l)[0] == BlockChar(l) && Lower(BlockChar(l)) == l
    ensures forall x :: x in Block(l)[1..] ==> Lower(x) == l
  {
  }

  /** One character of the pattern, counted by block character and by separator. */
  lemma PieceCount(c: char, sep: char, seen: set<char>, l: char)
    requires !('A' <= c <= 'Z') && IsFieldLetter(l)
    ensures multiset(Piece(c, sep, seen))[BlockChar(l)] ==
            if c == l && l !in seen then |Block(l)| else 0
  {
    BlockShape(l);
    if IsFieldLetter(c) {
      BlockShape(c);
    }
  }

  /** Each field's block character occurs |block| times if the field is new and present, else never. */
  lemma {:induction false} RenderBlockCount(p: string, sep: char, seen: set<char>, l: char)
    requires IsFieldLetter(l)
    ensures multiset(Render(p, sep, seen))[BlockChar(l)] == Fresh(p, seen, l)
    decreases |p|
  {
    if p != [] {
      var c := Lower(p[0]);
      var seen' := SeenAfter(c, seen);
      RenderBlockCount(p[1..], sep, seen', l);
      PieceCount(c, sep, seen, l);
      assert multiset(Render(p, sep, seen)) ==
             multiset(Piece(c, sep, seen)) + multiset(Render(p[1..], sep, seen'));
    }
  }

  /** A separator that is not a letter is its own lower case and no character of a block. */
  lemma PieceSeparator(c: char, sep: char, seen: set<char>)
    requires !('A' <= c <= 'Z') && !IsLetter(sep)
    ensures multiset(Piece(c, sep, seen))[sep] == if c == sep then 1 else 0
    ensures |Piece(c, sep, seen)| ==
            (if IsFieldLetter(c) && c !in seen then |Block(c)| else 0) + (if c == sep then 1 else 0)
    ensures forall x :: x in Piece(c, sep, seen) ==> x == 'd' || x == 'M' || x == 'y' || x == sep
  {
    if IsFieldLetter(c) {
      BlockShape(c);
    }
  }

  /** Occurrences of `x` in a non-empty string: its head's and its tail's. */
  lemma HeadCount(p: string, x: char)
    requires p != []
    ensures multiset(p)[x] == (if p[0] == x then 1 else 0) + multiset(p[1..])[x]
  {
    assert p == [p[0]] + p[1..];
  }

  /** One step of `Render`: the first character's piece, then the rest with its field recorded. */
  lemma RenderHead(p: string, sep: char, seen: set<char>)
    requires p != []
    ensures var c := Lower(p[0]);
            Render(p, sep, seen) == Piece(c, sep, seen) + Render(p[1..], sep, SeenAfter(c, seen))
  {
  }

  /** For a non-letter separator, separators are copied one for one and nothing else is kept. */
  lemma {:induction false} RenderSeparatorCount(p: string, sep: char, seen: set<char>)
    requires !IsLetter(sep)
    ensures multiset(Render(p, sep, seen))[sep] == multiset(p)[sep]
    ensures forall x :: x in Render(p, sep, seen) ==> x == 'd' || x == 'M' || x == 'y' || x == sep
    decreases |p|
  {
    if p != [] {
      var c := Lower(p[0]);
      var seen' := SeenAfter(c, seen);
      var piece, rest := Piece(c, sep, seen), Render(p[1..], sep, seen');
      RenderSeparatorCount(p[1..], sep, seen');
      PieceSeparator(c, sep, seen);
      HeadCount(p, sep);
      RenderHead(p, sep, seen);
      assert p[0] == sep <==> c == sep;
      assert multiset(piece + rest) == multiset(piece) + multiset(rest);
    }
  }

  /** What the first character of `p` and the rest contribute to a field's fresh block. */
  lemma FreshStep(p: string, seen: set<char>, l: char)
    requires p != [] && IsFieldLetter(l)
    ensures Fresh(p, seen, l) ==
            (if Lower(p[0]) == l && l !in seen then |Block(l)| else 0) +
            Fresh(p[1..], SeenAfter(Lower(p[0]), seen), l)
  {
    assert Fields(p) == SeenAfter(Lower(p[0]), {}) + Fields(p[1..]);
  }

  /** For a non-letter separator, the length is the fresh blocks plus the separators. */
  lemma {:induction false} RenderLength(p: string, sep: char, seen: set<char>)
    requires !IsLetter(sep)
    ensures |Render(p, sep, seen)| ==
            Fresh(p, seen, 'd') + Fresh(p, seen, 'm') + Fresh(p, seen, 'y') + multiset(p)[sep]
    decreases |p|
  {
    if p != [] {
      var c := Lower(p[0]);
      var seen' := SeenAfter(c, seen);
      RenderLength(p[1..], sep, seen');
      PieceSeparator(c, sep, seen);
      FreshStep(p, seen, 'd');
      FreshStep(p, seen, 'm');
      FreshStep(p, seen, 'y');
      HeadCount(p, sep);
      RenderHead(p, sep, seen);
      assert p[0] == sep <==> c == sep;
    }
  }

  lemma {:induction false} ContainsPrepend(x: string, s: string, pat: string)
    requires Contains(s, pat)
    ensures Contains(x + s, pat)
    decreases |x|
  {
    if x != [] {
      ContainsPrepend(x[1..], s, pat);
      assert (x + s)[1..] == x[1..] + s;
      assert Contains((x + s)[1..], pat);
    } else {
      assert x + s == s;
    }
  }

  /** A field that is new and present has its block in the rendered pattern. */
  lemma {:induction false} RenderWritesBlock(p: string, sep: char, seen: set<char>, l: char)
    requires IsFieldLetter(l) && l !in seen && HasField(p, l)
    ensures Contains(Render(p, sep, seen), Block(l))
    decreases |p|
  {
    var c := Lower(p[0]);
    var piece := Piece(c, sep, seen);
    var tail := Render(p[1..], sep, SeenAfter(c, seen));
    assert Render(p, sep, seen) == piece + tail;
    if c == l {
      assert piece == Block(l);
      assert Block(l) <= piece + tail;
    } else {
      assert Fields(p) == SeenAfter(c, {}) + Fields(p[1..]);
      RenderWritesBlock(p[1..], sep, SeenAfter(c, seen), l);
      ContainsPrepend(piece, tail, Block(l));
    }
  }

  /** A rendered pattern holds a field's block exactly when the field is new and present. */
  lemma RenderContains(p: string, sep: char, seen: set<char>, l: char)
    requires IsFieldLetter(l)
    ensures Contains(Render(p, sep, seen), Block(l)) <==> l !in seen && HasField(p, l)
  {
    var r := Render(p, sep, seen);
    if Contains(r, Block(l)) {
      RenderBlockCount(p, sep, seen, l);
      BlockShape(l);
      ContainsFirst(r, Block(l));
      assert BlockChar(l) in multiset(r);
    }
    if l !in seen && HasField(p, l) {
      RenderWritesBlock(p, sep, seen, l);
    }
  }

  /**
   * The shape of an acceptable date format for a non-letter separator: one "dd", "MM"
   * and "yyyy" block for each field the pattern names (in either case) and none for the
   * others, one separator per separator of the pattern, and nothing else.
   */
  lemma AcceptableFormatShape(p: string, sep: char)
    requires !IsLetter(sep)
    ensures var r := AcceptableFormat(p, sep);
      && multiset(r)['d'] == (if HasField(p, 'd') then 2 else 0)
      && multiset(r)['M'] == (if HasField(p, 'm') then 2 else 0)
      && multiset(r)['y'] == (if HasField(p, 'y') then 4 else 0)
      && (Contains(r, "dd") <==> HasField(p, 'd'))
      && (Contains(r, "MM") <==> HasField(p, 'm'))
      && (Contains(r, "yyyy") <==> HasField(p, 'y'))
      && multiset(r)[sep] == multiset(p)[sep]
      && |r| == (if HasField(p, 'd') then 2 else 0) + (if HasField(p, 'm') then 2 else 0) +
                (if HasField(p, 'y') then 4 else 0) + multiset(p)[sep]
      && forall x :: x in r ==> x == 'd' || x == 'M' || x == 'y' || x == sep
  {
    RenderBlockCount(p, sep, {}, 'd');
    RenderBlockCount(p, sep, {}, 'm');
    RenderBlockCount(p, sep, {}, 'y');
    RenderContains(p, sep, {}, 'd');
    RenderContains(p, sep, {}, 'm');
    RenderContains(p, sep, {}, 'y');
    RenderSeparatorCount(p, sep, {});
    RenderLength(p, sep, {});
  }

  /**
   * The pattern is rewritten piece by piece, in order: the output for `a + b` is the
   * output for `a` followed by the output for `b`, given the fields `a` already wrote.
   */
  lemma {:induction false} RenderAppend(a: string, b: string, sep: char, seen: set<char>)
    ensures Render(a + b, sep, seen) == Render(a, sep, seen) + Render(b, sep, seen + Fields(a))
    decreases |a|
  {
    if a == [] {
      assert a + b == b;
      assert seen + Fields(a) == seen;
    } else {
      var c := Lower(a[0]);
      assert (a + b)[0] == a[0] && (a + b)[1..] == a[1..] + b;
      RenderAppend(a[1..], b, sep, SeenAfter(c, seen));
      assert SeenAfter(c, seen) + Fields(a[1..]) == seen + Fields(a);
    }
  }

  /** Characters whose field has already been written produce nothing. */
  lemma {:induction false} RenderWritten(p: string, sep: char, seen: set<char>)
    requires forall x :: x in p ==> IsFieldLetter(Lower(x)) && Lower(x) in seen
    ensures Render(p, sep, seen) == [] && Fields(p) <= seen
    decreases |p|
  {
    if p != [] {
      assert p[0] in p;
      assert SeenAfter(Lower(p[0]), seen) == seen;
      RenderWritten(p[1..], sep, seen);
    }
  }

  /** Reading a block back writes it again and records its field. */
  lemma BlockFixed(l: char, sep: char, seen: set<char>)
    requires IsFieldLetter(l) && l !in seen
    ensures Render(Block(l), sep, seen) == Block(l)
    ensures Fields(Block(l)) == {l}
  {
    var b := Block(l);
    BlockLetters(l);
    RenderWritten(b[1..], sep, seen + {l});
    RenderWritten(b[1..], sep, {l});
    assert Render(b, sep, seen) == Piece(l, sep, seen) + Render(b[1..], sep, seen + {l});
    assert Fields(b) == {l} + Fields(b[1..]);
  }

  /** Reading back what one character wrote writes the same again and records the same fields. */
  lemma PieceFixed(c: char, sep: char, seen: set<char>)
    requires !('A' <= c <= 'Z')
    ensures Render(Piece(c, sep, seen), sep, seen) == Piece(c, sep, seen)
    ensures seen + Fields(Piece(c, sep, seen)) == SeenAfter(c, seen)
  {
    if IsFieldLetter(c) && c !in seen {
      BlockFixed(c, sep, seen);
    } else if IsFieldLetter(c) {
      assert seen + {c} == seen;
    } else if c == sep {
      assert Render([sep], sep, seen) == Piece(sep, sep, seen) + Render([], sep, seen);
      assert Fields([sep]) == {};
    }
  }

  lemma {:induction false} RenderIdempotent(p: string, sep: char, seen: set<char>)
    ensures Render(Render(p, sep, seen), sep, seen) == Render(p, sep, seen)
    decreases |p|
  {
    if p != [] {
      var c := Lower(p[0]);
      var piece := Piece(c, sep, seen);
      var tail := Render(p[1..], sep, SeenAfter(c, seen));
      RenderIdempotent(p[1..], sep, SeenAfter(c, seen));
      RenderAppend(piece, tail, sep, seen);
      PieceFixed(c, sep, seen);
    }
  }

  /** Feeding an acceptable date format back in, with the same separator, returns it unchanged. */
  lemma AcceptableFormatIdempotent(p: string, sep: char)
    ensures AcceptableFormat(AcceptableFormat(p, sep), sep) == AcceptableFormat(p, sep)
  {
    RenderIdempotent(p, sep, {});
  }

  /** The short US pattern becomes the fixed-width one, with upper-case months. */
  lemma AcceptableFormatExample()
    ensures AcceptableFormat("d/M/yy", '/') == "dd/MM/yyyy"
  {
    RenderAppend("d/M/", "yy", '/', {});
    RenderAppend("d/", "M/", '/', {});
  }

  // ----------------------------------------------------------------------------------
  // parseDate

  /** The format `parseDate` parses with. */
  datatype DateFormatChoice =
    | DefaultShort              // DateFormat.getDateInstance(DateFormat.SHORT)
    | Pattern(pattern: string)  // SimpleDateFormat(acceptableDateFormat)

  /**
   * The platform's non-lenient parse of a text with a format: the date it reads, or
   * `None` where it throws a ParseException.
   */
  type DateParser = (DateFormatChoice, string) -> Option<LocalDate>

  datatype ParseError =
    | Unparseable               // raised by the platform parser
    | YearTooShort(digits: nat) // "Year has less than 4 digits."
    | YearTooLong(digits: nat)  // "Year has more than 4 digits."

  /** A given non-empty acceptable format is used; a null or empty one falls back to the default. */
  function FormatFor(acceptableDateFormat: Option<string>): (choice: DateFormatChoice)
    ensures choice.DefaultShort? <==> acceptableDateFormat.None? || acceptableDateFormat.value == []
    ensures choice.Pattern? ==> choice.pattern == acceptableDateFormat.value
  {
    if acceptableDateFormat.None? || acceptableDateFormat.value == [] then DefaultShort
    else Pattern(acceptableDateFormat.value)
  }

  /** Kotlin's `toString()` on a nullable text. */
  function TextOf(text: Option<string>): string {
    if text.None? then "null" else text.value
  }

  function Abs(x: int): nat {
    if x < 0 then -x else x
  }

  /** Number of decimal digits of `n`; 0 has one. */
  function DigitCount(n: nat): (r: nat)
    ensures 1 <= r
  {
    if n < 10 then 1 else 1 + DigitCount(n / 10)
  }

  function Pow10(k: nat): (r: nat)
    ensures 1 <= r
  {
    if k == 0 then 1 else 10 * Pow10(k - 1)
  }

  /** `n` has at most `k` digits exactly when it is below 10^k. */
  lemma {:induction false} DigitCountAtMost(n: nat, k: nat)
    requires 1 <= k
    ensures DigitCount(n) <= k <==> n < Pow10(k)
    decreases k
  {
    if k == 1 {
      assert Pow10(1) == 10;
      if n >= 10 { assert DigitCount(n) == 1 + DigitCount(n / 10); }
    } else {
      assert Pow10(k) == 10 * Pow10(k - 1);
      if n < 10 {
        DigitCountAtMost(n, k - 1);
      } else {
        DigitCountAtMost(n / 10, k - 1);
        assert n / 10 < Pow10(k - 1) <==> n < 10 * Pow10(k - 1);
      }
    }
  }

  /** The digit count of a year, as the year-length helper reports it. */
  function YearDigits(year: int): nat {
    DigitCount(Abs(year))
  }

  /**
   * `parseDate`: the platform parse with the chosen format, then the year gate. Only
   * dates whose year has exactly four digits come back; fewer or more digits raise a
   * ParseException carrying the digit count.
   */
  function ParseDate(text: Option<string>, acceptableDateFormat: Option<string>, parse: DateParser)
    : (r: Result<LocalDate, ParseError>)
    ensures var parsed := parse(FormatFor(acceptableDateFormat), TextOf(text));
      && (parsed.None? ==> r == Err(Unparseable))
      && (parsed.Some? && Abs(parsed.value.year) < 1000 ==>
            r == Err(YearTooShort(YearDigits(parsed.value.year))))
      && (parsed.Some? && Abs(parsed.value.year) > 9999 ==>
            r == Err(YearTooLong(YearDigits(parsed.value.year))))
      && (parsed.Some? && 1000 <= Abs(parsed.value.year) <= 9999 ==> r == Ok(parsed.value))
    ensures r.Ok? ==> 1000 <= Abs(r.value.year) <= 9999
  {
    match parse(FormatFor(acceptableDateFormat), TextOf(text))
    case None => Err(Unparseable)
    case Some(date) =>
      var digits := YearDigits(date.year);
      DigitCountAtMost(Abs(date.year), 3);
      DigitCountAtMost(Abs(date.year), 4);
      assert Pow10(3) == 1000 && Pow10(4) == 10000;
      if digits < 4 then Err(YearTooShort(digits))
      else if digits > 4 then Err(YearTooLong(digits))
      else Ok(date)
  }
}
