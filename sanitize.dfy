/**
 * The blank-string rule applied to every entity before it is persisted or
 * merged: a non-static, non-final String field whose value is non-null and
 * empty once trimmed is set to null.
 */
module Sanitize {
  import opened Entities

  /** The characters `String.trim` strips: every code unit up to and including the space. */
  predicate IsTrimmed(c: char) { c <= ' ' }

  /** `s` with its leading trimmable characters removed. */
  function TrimStart(s: string): (r: string)
    ensures |r| <= |s| && r == s[|s| - |r|..]
    ensures forall i :: 0 <= i < |s| - |r| ==> IsTrimmed(s[i])
    ensures r == [] || !IsTrimmed(r[0])
  {
    if s != [] && IsTrimmed(s[0]) then
      var r := TrimStart(s[1..]);
      assert s[1..][|s| - 1 - |r|..] == s[|s| - |r|..];
      assert forall i :: 1 <= i < |s| - |r| ==> s[i] == s[1..][i - 1];
      r
    else s
  }

  /** `s` with its trailing trimmable characters removed. */
  function TrimEnd(s: string): (r: string)
    ensures |r| <= |s| && r == s[..|r|]
    ensures forall i :: |r| <= i < |s| ==> IsTrimmed(s[i])
    ensures r == [] || !IsTrimmed(r[|r| - 1])
  {
    if s != [] && IsTrimmed(s[|s| - 1]) then
      var r := TrimEnd(s[..|s| - 1]);
      assert s[..|s| - 1][..|r|] == s[..|r|];
      assert forall i :: |r| <= i < |s| - 1 ==> s[i] == s[..|s| - 1][i];
      r
    else s
  }

  /** Java's `String.trim`: strip the leading, then the trailing, trimmable characters. */
  function Trim(s: string): string
  {
    TrimEnd(TrimStart(s))
  }

  /** Every character of `s` is one that `trim` strips. */
  ghost predicate AllTrimmed(s: string)
  {
    forall i :: 0 <= i < |s| ==> IsTrimmed(s[i])
  }

  /** `s.trim().isEmpty()` holds exactly when every character of `s` is at most U+0020. */
  lemma TrimEmptyIffAllTrimmed(s: string)
    ensures Trim(s) == [] <==> AllTrimmed(s)
  {
    var t := TrimStart(s);
    if t != [] {
      assert s[|s| - |t|] == t[0];
      assert t[..1] == TrimEnd(t)[..1];
    }
  }

  /** The fields the rule looks at: declared `String`, neither `static` nor `final`. */
  predicate Participates(f: Field)
  {
    f.kind == StringKind && !f.isStatic && !f.isFinal
  }

  /** `value != null && value.trim().isEmpty()`. */
  predicate IsBlank(v: Value)
  {
    v.Text? && Trim(v.s) == []
  }

  /** One field after the rule. */
  function SanitizeField(f: Field): Field
  {
    if Participates(f) && IsBlank(f.value) then f.(value := Null) else f
  }

  /** The declared fields of an entity after the rule, in declaration order. */
  function Sanitized(fields: seq<Field>): seq<Field>
  {
    seq(|fields|, i requires 0 <= i < |fields| => SanitizeField(fields[i]))
  }

  /** No participating field holds a string made only of trimmable characters. */
  ghost predicate NoBlankStrings(fields: seq<Field>)
  {
    forall i :: 0 <= i < |fields| && Participates(fields[i]) && fields[i].value.Text? ==>
      !AllTrimmed(fields[i].value.s)
  }

  /**
   * Field by field: a participating field holding a non-null all-blank string
   * becomes null; every other field, and every attribute but the value, is kept.
   */
  lemma SanitizedAt(fields: seq<Field>, i: nat)
    requires i < |fields|
    ensures |Sanitized(fields)| == |fields|
    ensures var f, g := fields[i], Sanitized(fields)[i];
      && g.name == f.name && g.kind == f.kind && g.isStatic == f.isStatic && g.isFinal == f.isFinal
      && g.value == (if Participates(f) && f.value.Text? && AllTrimmed(f.value.s) then Null else f.value)
  {
    if fields[i].value.Text? {
      TrimEmptyIffAllTrimmed(fields[i].value.s);
    }
  }

  /** After the rule no participating field is blank. */
  lemma SanitizedHasNoBlankStrings(fields: seq<Field>)
    ensures NoBlankStrings(Sanitized(fields))
  {
    forall i | 0 <= i < |fields|
      ensures Participates(Sanitized(fields)[i]) && Sanitized(fields)[i].value.Text? ==>
        !AllTrimmed(Sanitized(fields)[i].value.s)
    {
      SanitizedAt(fields, i);
    }
  }

  /** The rule changes nothing exactly when no participating field is blank. */
  lemma SanitizedUnchangedIff(fields: seq<Field>)
    ensures Sanitized(fields) == fields <==> NoBlankStrings(fields)
  {
    if NoBlankStrings(fields) {
      forall i | 0 <= i < |fields| ensures Sanitized(fields)[i] == fields[i] {
        SanitizedAt(fields, i);
      }
    } else {
      var i :| 0 <= i < |fields| && Participates(fields[i]) && fields[i].value.Text? &&
        AllTrimmed(fields[i].value.s);
      SanitizedAt(fields, i);
      assert Sanitized(fields)[i] != fields[i];
    }
  }

  /** Running the rule a second time changes nothing. */
  lemma SanitizeIdempotent(fields: seq<Field>)
    ensures Sanitized(Sanitized(fields)) == Sanitized(fields)
  {
    SanitizedHasNoBlankStrings(fields);
    SanitizedUnchangedIff(Sanitized(fields));
  }
}
