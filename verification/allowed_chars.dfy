/** The character checks the parser runs on comments and string bodies
    (`allowed_chars` in taplo/src/util/mod.rs), and `strip_quotes`. Text is
    a sequence of Unicode scalar values; indices count characters. */
module AllowedChars {
  import opened Wrappers

  /** Unicode general category Cc: U+0000 to U+001F and U+007F to U+009F. */
  predicate IsControl(c: char)
  {
    c <= '\U{001F}' || ('\U{007F}' <= c <= '\U{009F}')
  }

  /** The C0 controls but tab, and DEL: what basic strings may not hold. */
  predicate IsStringControl(c: char)
  {
    c != '\t' && (c <= '\U{0008}' || ('\U{000A}' <= c <= '\U{001F}') || c == '\U{007F}')
  }

  /** Forbidden in a comment and in a literal string: a control but tab. */
  predicate CommentForbidden(c: char)
  {
    c != '\t' && IsControl(c)
  }

  /** Forbidden in a basic string. */
  predicate StringForbidden(c: char)
  {
    IsStringControl(c)
  }

  /** Forbidden in a multi-line basic string: as in a basic string, but line
      feed and carriage return are allowed. */
  predicate MultiLineStringForbidden(c: char)
  {
    c != '\n' && c != '\r' && IsStringControl(c)
  }

  /** Forbidden in a multi-line literal string: a control but tab, line feed
      and carriage return. */
  predicate MultiLineStringLiteralForbidden(c: char)
  {
    c != '\n' && c != '\r' && CommentForbidden(c)
  }

  /** The indices `err` are exactly the positions of `s` whose character is
      forbidden, in increasing order. */
  predicate ExactlyForbidden(s: string, forbidden: char -> bool, err: seq<nat>)
  {
    && (forall k | 0 <= k < |err| :: err[k] < |s| && forbidden(s[err[k]]))
    && (forall k, l | 0 <= k < l < |err| :: err[k] < err[l])
    && (forall i | 0 <= i < |s| && forbidden(s[i]) :: i in err)
  }

  /** The loop every check runs: collects the index of every forbidden
      character, and fails with them when there is any. */
  method CheckChars(s: string, forbidden: char -> bool) returns (r: Result<(), seq<nat>>)
    ensures r.Ok? <==> forall i | 0 <= i < |s| :: !forbidden(s[i])
    ensures r.Err? ==> r.error != [] && ExactlyForbidden(s, forbidden, r.error)
  {
    var errIndices: seq<nat> := [];
    var i := 0;
    while i < |s|
      invariant 0 <= i <= |s|
      invariant forall k | 0 <= k < |errIndices| :: errIndices[k] < i && forbidden(s[errIndices[k]])
      invariant forall k, l | 0 <= k < l < |errIndices| :: errIndices[k] < errIndices[l]
      invariant forall j | 0 <= j < i && forbidden(s[j]) :: j in errIndices
    {
      if forbidden(s[i]) {
        errIndices := errIndices + [i];
      }
      i := i + 1;
    }

    if errIndices == [] {
      r := Ok(());
    } else {
      assert forbidden(s[errIndices[0]]);
      r := Err(errIndices);
    }
  }

  /** `allowed_chars::comment`. */
  method Comment(s: string) returns (r: Result<(), seq<nat>>)
    ensures r.Ok? <==> forall i | 0 <= i < |s| :: !CommentForbidden(s[i])
    ensures r.Err? ==> r.error != [] && ExactlyForbidden(s, CommentForbidden, r.error)
  {
    r := CheckChars(s, CommentForbidden);
  }

  /** `allowed_chars::string`. */
  method String(s: string) returns (r: Result<(), seq<nat>>)
    ensures r.Ok? <==> forall i | 0 <= i < |s| :: !StringForbidden(s[i])
    ensures r.Err? ==> r.error != [] && ExactlyForbidden(s, StringForbidden, r.error)
  {
    r := CheckChars(s, StringForbidden);
  }

  /** `allowed_chars::multi_line_string`. */
  method MultiLineString(s: string) returns (r: Result<(), seq<nat>>)
    ensures r.Ok? <==> forall i | 0 <= i < |s| :: !MultiLineStringForbidden(s[i])
    ensures r.Err? ==> r.error != [] && ExactlyForbidden(s, MultiLineStringForbidden, r.error)
  {
    r := CheckChars(s, MultiLineStringForbidden);
  }

  /** `allowed_chars::string_literal`: the same check as for a comment. */
  method StringLiteral(s: string) returns (r: Result<(), seq<nat>>)
    ensures r.Ok? <==> forall i | 0 <= i < |s| :: !CommentForbidden(s[i])
    ensures r.Err? ==> r.error != [] && ExactlyForbidden(s, CommentForbidden, r.error)
  {
    r := Comment(s);
  }

  /** `allowed_chars::multi_line_string_literal`. */
  method MultiLineStringLiteral(s: string) returns (r: Result<(), seq<nat>>)
    ensures r.Ok? <==> forall i | 0 <= i < |s| :: !MultiLineStringLiteralForbidden(s[i])
    ensures r.Err? ==> r.error != [] && ExactlyForbidden(s, MultiLineStringLiteralForbidden, r.error)
  {
    r := CheckChars(s, MultiLineStringLiteralForbidden);
  }

  /** How the character sets relate: tab is allowed everywhere; a basic
      string forbids only C0 controls and DEL, so the C1 controls U+0080 to
      U+009F are the characters a comment forbids and a basic string
      allows; the multi-line variants differ from the single-line ones
      exactly by allowing line feed and carriage return. */
  lemma ForbiddenSets(c: char)
    ensures c == '\t' ==>
              !CommentForbidden(c) && !StringForbidden(c)
              && !MultiLineStringForbidden(c) && !MultiLineStringLiteralForbidden(c)
    ensures StringForbidden(c) ==> CommentForbidden(c)
    ensures CommentForbidden(c) && !StringForbidden(c) <==> '\U{0080}' <= c <= '\U{009F}'
    ensures MultiLineStringForbidden(c) <==> StringForbidden(c) && c != '\n' && c != '\r'
    ensures MultiLineStringLiteralForbidden(c) <==> CommentForbidden(c) && c != '\n' && c != '\r'
    ensures MultiLineStringForbidden(c) ==> MultiLineStringLiteralForbidden(c)
  {
  }

  /** `strip_quotes`: when the text starts with a quote, drops its first
      and last characters (the last is not checked to be a quote);
      otherwise returns it unchanged. The source slices bytes, so in the
      quoted case it needs at least two characters and a one-byte (ASCII)
      last character. */
  function StripQuotes(s: string): (r: string)
    requires |s| > 0 && (s[0] == '"' || s[0] == '\'') ==> |s| >= 2 && s[|s| - 1] < '\U{0080}'
    ensures |s| > 0 && (s[0] == '"' || s[0] == '\'') ==>
              |r| == |s| - 2 && s == [s[0]] + r + [s[|s| - 1]]
    ensures !(|s| > 0 && (s[0] == '"' || s[0] == '\'')) ==> r == s
  {
    if |s| > 0 && (s[0] == '"' || s[0] == '\'') then s[1..|s| - 1] else s
  }

  /** A text between a pair of quotes comes back as the text inside. */
  lemma StripQuotesQuoted(q: char, inner: string)
    requires q == '"' || q == '\''
    ensures StripQuotes([q] + inner + [q]) == inner
  {
    var s := [q] + inner + [q];
    assert s[1..|s| - 1] == inner;
  }
}
