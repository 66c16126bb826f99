/** What `Config`'s debug output shows of a connection string. */
module Redaction {

  /** `://` stands at position `i`. */
  predicate MarkAt(s: string, i: int) {
    0 <= i && i + 3 <= |s| && s[i] == ':' && s[i + 1] == '/' && s[i + 2] == '/'
  }

  /** The first `://` at or after `from`, or -1. */
  function FindMark(s: string, from: nat): (i: int)
    requires from <= |s|
    ensures i == -1 || (from <= i && MarkAt(s, i))
    ensures forall j :: from <= j && (i == -1 || j < i) ==> !MarkAt(s, j)
    decreases |s| - from
  {
    if MarkAt(s, from) then from
    else if from == |s| then -1
    else FindMark(s, from + 1)
  }

  /** The last `@` before `to`, or -1. */
  function FindLastAt(s: string, to: nat): (i: int)
    requires to <= |s|
    ensures -1 <= i < to && (i >= 0 ==> s[i] == '@')
    ensures forall j :: i < j < to ==> s[j] != '@'
  {
    if to == 0 then -1 else if s[to - 1] == '@' then to - 1 else FindLastAt(s, to - 1)
  }

  /** The credentials, everything between the first `://` and the last `@`, give way to `***`. */
  function RedactUrl(url: string): string {
    var scheme := FindMark(url, 0);
    var at := FindLastAt(url, |url|);
    if scheme >= 0 && at > scheme + 3 then url[..scheme] + "://***@" + url[at + 1..] else url
  }

  /** `url` is `prefix://credentials@rest` with nothing of its own to find in `prefix` or `rest`. */
  lemma MarksOf(prefix: string, credentials: string, rest: string)
    requires forall i :: !MarkAt(prefix, i)
    requires '@' !in rest
    ensures var url := prefix + "://" + credentials + "@" + rest;
            && FindMark(url, 0) == |prefix|
            && FindLastAt(url, |url|) == |prefix| + 3 + |credentials|
  {
    var url := prefix + "://" + credentials + "@" + rest;
    var end := |prefix| + 3 + |credentials|;
    assert MarkAt(url, |prefix|) && url[end] == '@';
    forall i | 0 <= i < |prefix| ensures !MarkAt(url, i) {
      assert !MarkAt(prefix, i);
    }
    forall j | end < j < |url| ensures url[j] != '@' {
      assert url[j] == rest[j - end - 1];
    }
  }

  /** Credentials of any kind, as long as there are some, leave no trace in the output. */
  lemma RedactHidesCredentials(prefix: string, credentials: string, rest: string)
    requires forall i :: !MarkAt(prefix, i)
    requires '@' !in rest && credentials != ""
    ensures RedactUrl(prefix + "://" + credentials + "@" + rest) == prefix + "://***@" + rest
  {
    MarksOf(prefix, credentials, rest);
    var url := prefix + "://" + credentials + "@" + rest;
    assert url[..|prefix|] == prefix;
    assert url[|prefix| + 3 + |credentials| + 1..] == rest;
  }

  /** Two connection strings that differ only in their credentials are printed alike. */
  lemma RedactNoninterference(prefix: string, c1: string, c2: string, rest: string)
    requires forall i :: !MarkAt(prefix, i)
    requires '@' !in rest && c1 != "" && c2 != ""
    ensures RedactUrl(prefix + "://" + c1 + "@" + rest) == RedactUrl(prefix + "://" + c2 + "@" + rest)
  {
    RedactHidesCredentials(prefix, c1, rest);
    RedactHidesCredentials(prefix, c2, rest);
  }

  lemma CutUp(url: string, i: nat, j: nat)
    requires MarkAt(url, i) && i + 3 <= j < |url| && url[j] == '@'
    ensures url == url[..i] + "://" + url[i + 3..j] + "@" + url[j + 1..]
  {
    assert url[..i] + "://" == url[..i + 3];
    assert url[..i + 3] + url[i + 3..j] == url[..j];
    assert url[..j] + "@" == url[..j + 1];
  }

  /** Before the first `://` there is none. */
  lemma NoMarkBefore(url: string, to: nat)
    requires to <= |url| && forall i :: 0 <= i < to ==> !MarkAt(url, i)
    ensures forall i :: !MarkAt(url[..to], i)
  {
    forall i ensures !MarkAt(url[..to], i) {
      if 0 <= i && i + 3 <= to {
        assert !MarkAt(url, i);
      }
    }
  }

  /** Cut at the first `://` and the last `@`, the ends have nothing more to find. */
  lemma Ends(url: string)
    requires FindMark(url, 0) >= 0 && FindLastAt(url, |url|) > FindMark(url, 0) + 3
    ensures forall i :: !MarkAt(url[..FindMark(url, 0)], i)
    ensures '@' !in url[FindLastAt(url, |url|) + 1..]
  {
    NoMarkBefore(url, FindMark(url, 0));
    var (at, rest) := (FindLastAt(url, |url|), url[FindLastAt(url, |url|) + 1..]);
    forall k | 0 <= k < |rest| ensures rest[k] != '@' {
      assert rest[k] == url[at + 1 + k];
    }
  }

  lemma MaskedSpelling(prefix: string, rest: string)
    ensures prefix + "://" + "***" + "@" + rest == prefix + "://***@" + rest
  {
    assert "://" + "***" + "@" == "://***@";
    assert prefix + "://" + "***" + "@" == prefix + ("://" + "***" + "@");
  }

  /** The output is a fixed point. */
  lemma MaskedIsFixed(prefix: string, rest: string)
    requires forall i :: !MarkAt(prefix, i)
    requires '@' !in rest
    ensures RedactUrl(prefix + "://***@" + rest) == prefix + "://***@" + rest
  {
    MaskedSpelling(prefix, rest);
    RedactHidesCredentials(prefix, "***", rest);
  }

  lemma RedactIdempotent(url: string)
    ensures RedactUrl(RedactUrl(url)) == RedactUrl(url)
  {
    var (scheme, at) := (FindMark(url, 0), FindLastAt(url, |url|));
    if scheme >= 0 && at > scheme + 3 {
      var out := url[..scheme] + "://***@" + url[at + 1..];
      assert RedactUrl(url) == out;
      assert RedactUrl(out) == out by {
        Ends(url);
        MaskedIsFixed(url[..scheme], url[at + 1..]);
      }
    }
  }

  /** The first `://` is at `i`, the last `@` at `j`, and there is something in between. */
  ghost predicate HasCredentials(url: string, i: int, j: int) {
    && MarkAt(url, i) && (forall k :: k < i ==> !MarkAt(url, k))
    && i + 3 < j < |url| && url[j] == '@' && (forall k :: j < k < |url| ==> url[k] != '@')
  }

  lemma CredentialsFound(url: string, i: int, j: int)
    requires HasCredentials(url, i, j)
    ensures i == FindMark(url, 0) && j == FindLastAt(url, |url|)
  {
    assert MarkAt(url, i);
    assert url[j] == '@';
  }

  /** With credentials, the string is printed as it is exactly when they already read `***`. */
  lemma RedactChanges(url: string, i: int, j: int)
    requires HasCredentials(url, i, j)
    ensures RedactUrl(url) == url <==> url[i + 3..j] == "***"
  {
    CredentialsFound(url, i, j);
    CutUp(url, i, j);
    var out := RedactUrl(url);
    assert out == url[..i] + "://***@" + url[j + 1..];
    assert out[i + 3..i + 6] == "***";
    if url[i + 3..j] == "***" {
      MaskedSpelling(url[..i], url[j + 1..]);
    } else if |out| == |url| {
      assert j == i + 6;
    }
  }

  /** A string is printed as it is exactly when it has no credentials other than `***`. */
  lemma RedactChangesIff(url: string)
    ensures RedactUrl(url) == url <==> forall i, j :: HasCredentials(url, i, j) ==> url[i + 3..j] == "***"
  {
    forall i, j | HasCredentials(url, i, j) ensures RedactUrl(url) == url <==> url[i + 3..j] == "***" {
      RedactChanges(url, i, j);
    }
    var (scheme, at) := (FindMark(url, 0), FindLastAt(url, |url|));
    if scheme >= 0 && at > scheme + 3 {
      assert HasCredentials(url, scheme, at);
    }
  }
}
