/**
 * The three naming patterns of the policy pack. Each is a Python regular
 * expression of the shape `^[class]+$`; only that shape is modelled: a
 * character class (ranges and single characters), its source text, and what
 * `re.match` answers for it.
 */
module NamePatterns {

  /** One member of a bracketed character class: `a-z` or a single literal. */
  datatype ClassItem = Range(lo: char, hi: char) | Single(c: char)

  /** AWS_NAME_PATTERN, ECR_NAME_PATTERN and S3_BUCKET_PATTERN. */
  datatype Pattern = AwsName | EcrName | S3Bucket

  /**
   * The class of each pattern as Python's `re` reads it. A `-` that follows a
   * range or stands last before `]` is a literal, so `[a-z0-9-_/]` is
   * a-z, 0-9, '-', '_', '/' and `[a-z0-9.-]` is a-z, 0-9, '.', '-'.
   */
  function Items(p: Pattern): seq<ClassItem> {
    match p
    case AwsName => [Range('a', 'z'), Range('0', '9'), Single('-')]
    case EcrName => [Range('a', 'z'), Range('0', '9'), Single('-'), Single('_'), Single('/')]
    case S3Bucket => [Range('a', 'z'), Range('0', '9'), Single('.'), Single('-')]
  }

  function RenderItems(items: seq<ClassItem>): string {
    if items == [] then ""
    else
      (match items[0]
       case Range(lo, hi) => [lo, '-', hi]
       case Single(c) => [c])
      + RenderItems(items[1..])
  }

  /** The pattern's source text, as it appears in violation messages. */
  function Source(p: Pattern): string {
    "^[" + RenderItems(Items(p)) + "]+$"
  }

  /** The rendered classes are exactly the three constants of the policy module. */
  lemma SourceText()
    ensures Source(AwsName) == "^[a-z0-9-]+$"
    ensures Source(EcrName) == "^[a-z0-9-_/]+$"
    ensures Source(S3Bucket) == "^[a-z0-9.-]+$"
  {
  }

  lemma SourceInjective(p: Pattern, q: Pattern)
    requires Source(p) == Source(q)
    ensures p == q
  {
    SourceText();
  }

  predicate ItemAllows(item: ClassItem, c: char) {
    match item
    case Range(lo, hi) => lo <= c <= hi
    case Single(d) => c == d
  }

  /** `c` matches the bracketed class of `p`. */
  predicate Allows(p: Pattern, c: char) {
    exists k :: 0 <= k < |Items(p)| && ItemAllows(Items(p)[k], c)
  }

  /** The characters each class admits, spelled out. */
  lemma AllowedCharacters(c: char)
    ensures Allows(AwsName, c) <==> 'a' <= c <= 'z' || '0' <= c <= '9' || c == '-'
    ensures Allows(EcrName, c) <==> 'a' <= c <= 'z' || '0' <= c <= '9' || c == '-' || c == '_' || c == '/'
    ensures Allows(S3Bucket, c) <==> 'a' <= c <= 'z' || '0' <= c <= '9' || c == '.' || c == '-'
  {
    if 'a' <= c <= 'z' {
      assert ItemAllows(Items(AwsName)[0], c) && ItemAllows(Items(EcrName)[0], c) && ItemAllows(Items(S3Bucket)[0], c);
    } else if '0' <= c <= '9' {
      assert ItemAllows(Items(AwsName)[1], c) && ItemAllows(Items(EcrName)[1], c) && ItemAllows(Items(S3Bucket)[1], c);
    } else if c == '-' {
      assert ItemAllows(Items(AwsName)[2], c) && ItemAllows(Items(EcrName)[2], c) && ItemAllows(Items(S3Bucket)[3], c);
    } else if c == '_' {
      assert ItemAllows(Items(EcrName)[3], c);
    } else if c == '/' {
      assert ItemAllows(Items(EcrName)[4], c);
    } else if c == '.' {
      assert ItemAllows(Items(S3Bucket)[2], c);
    }
  }

  /** Every character of `s` is in the class of `p` (the `[class]*` part of a match). */
  function AllAllowed(p: Pattern, s: string): (b: bool)
    ensures b <==> forall i :: 0 <= i < |s| ==> Allows(p, s[i])
  {
    if s == [] then true else Allows(p, s[0]) && AllAllowed(p, s[1..])
  }

  /** `s` is one or more characters of the class and nothing else. */
  predicate FullMatch(p: Pattern, s: string) {
    |s| > 0 && AllAllowed(p, s)
  }

  /**
   * `re.match(Source(p), s)` succeeds. Python's `$` matches at the end of the
   * string and also just before a single newline that ends it, so a full
   * match followed by one "\n" is accepted too.
   */
  predicate ReMatch(p: Pattern, s: string) {
    FullMatch(p, s) || (|s| >= 2 && s[|s| - 1] == '\n' && FullMatch(p, s[..|s| - 1]))
  }

  /** No class admits a newline, so a newline can only be the one `$` tolerates. */
  lemma NewlineNeverAllowed(p: Pattern)
    ensures !Allows(p, '\n')
  {
    AllowedCharacters('\n');
  }

  /** `re.match` accepts exactly the full matches and the full matches followed by one newline. */
  lemma ReMatchMeaning(p: Pattern, s: string)
    ensures ReMatch(p, s) <==> FullMatch(p, s) || exists t :: s == t + "\n" && FullMatch(p, t)
  {
    if |s| >= 2 && s[|s| - 1] == '\n' && FullMatch(p, s[..|s| - 1]) {
      assert s == s[..|s| - 1] + "\n";
    }
    if t :| s == t + "\n" && FullMatch(p, t) {
      assert s[..|s| - 1] == t;
    }
  }

  /** Without a newline in it, a string matches exactly when every character is in the class. */
  lemma ReMatchWithoutNewline(p: Pattern, s: string)
    requires forall i :: 0 <= i < |s| ==> s[i] != '\n'
    ensures ReMatch(p, s) <==> |s| > 0 && forall i :: 0 <= i < |s| ==> Allows(p, s[i])
  {
  }

  /** A trailing newline is stripped by `$` but a second one is not. */
  lemma TrailingNewlines(p: Pattern, t: string)
    requires FullMatch(p, t)
    ensures ReMatch(p, t + "\n")
    ensures !ReMatch(p, t + "\n\n")
  {
    var s := t + "\n";
    assert s[..|s| - 1] == t;
    var u := t + "\n\n";
    assert u[|u| - 2] == '\n';
    assert u[..|u| - 1][|u| - 2] == '\n';
    NewlineNeverAllowed(p);
  }
}
