/** OCI references: their parser and printer, and two places that rewrite references as plain strings. */
module References {
  import opened Wrappers
  import Strings

  const SCHEME := "oci://"

  /** The tag is empty if the reference has a digest, and the digest if it has a tag; both may be. */
  datatype ParsedRef = ParsedRef(host: string, repository: string, tag: string, digest: string)

  datatype ParseError = EmptyReference | MissingRepository | EmptyHost | EmptyRepository

  function Reference(r: ParsedRef): string {
    var ref := r.host + "/" + r.repository;
    if r.digest != "" then ref + "@" + r.digest
    else if r.tag != "" then ref + ":" + r.tag
    else ref
  }

  function SplitHost(raw: string, tag: string, digest: string): Result<ParsedRef, ParseError> {
    var slash := Strings.Index(raw, '/');
    if slash < 0 then Failure(MissingRepository)
    else if raw[..slash] == "" then Failure(EmptyHost)
    else if raw[slash + 1..] == "" then Failure(EmptyRepository)
    else Success(ParsedRef(raw[..slash], raw[slash + 1..], tag, digest))
  }

  /** What is left of a reference without digest when its tag is split off, and the tag. */
  function SplitTag(raw: string): (string, string) {
    var slash := Strings.Index(raw, '/');
    if slash < 0 then (raw, "")
    else
      var colon := Strings.LastIndex(raw[slash..], ':');
      if colon < 0 then (raw, "") else (raw[..colon + slash], raw[colon + slash + 1..])
  }

  function ParseRaw(raw: string): Result<ParsedRef, ParseError> {
    var at := Strings.Index(raw, '@');
    var digest, rest := if at >= 0 then raw[at + 1..] else "", if at >= 0 then raw[..at] else raw;
    ParsePart(rest, digest)
  }

  function ParsePart(rest: string, digest: string): Result<ParsedRef, ParseError> {
    if digest != "" then SplitHost(rest, "", digest)
    else SplitHost(SplitTag(rest).0, SplitTag(rest).1, "")
  }

  lemma PartStep(rest: string, digest: string)
    ensures ParsePart(rest, digest) == if digest != "" then SplitHost(rest, "", digest)
                                       else SplitHost(SplitTag(rest).0, SplitTag(rest).1, "")
  {
  }

  function Parse(ref: string): Result<ParsedRef, ParseError> {
    var raw := Strings.TrimPrefix(ref, SCHEME);
    if raw == "" then Failure(EmptyReference) else ParseRaw(raw)
  }

  lemma AtStep(ref: string, raw: string, at: int)
    requires raw == Strings.TrimPrefix(ref, SCHEME) && raw != "" && at == Strings.Index(raw, '@')
    ensures at < 0 ==> Parse(ref) == ParsePart(raw, "")
    ensures at >= 0 ==> Parse(ref) == ParsePart(raw[..at], raw[at + 1..])
  {
    hide Strings.Index, Strings.TrimPrefix, SplitHost, SplitTag;
  }

  lemma TagStep(raw: string, slash: int)
    requires slash == Strings.Index(raw, '/')
    ensures slash < 0 ==> SplitTag(raw) == (raw, "")
    ensures slash >= 0 ==>
              var colon := Strings.LastIndex(raw[slash..], ':');
              SplitTag(raw) == if colon < 0 then (raw, "") else (raw[..colon + slash], raw[colon + slash + 1..])
  {
    hide Strings.Index, Strings.LastIndex;
  }

  lemma HostStep(raw: string, tag: string, digest: string, cut: int)
    requires cut == Strings.Index(raw, '/')
    ensures cut < 0 ==> SplitHost(raw, tag, digest) == Failure(MissingRepository)
    ensures cut >= 0 ==>
              SplitHost(raw, tag, digest) ==
              if raw[..cut] == "" then Failure(EmptyHost)
              else if raw[cut + 1..] == "" then Failure(EmptyRepository)
              else Success(ParsedRef(raw[..cut], raw[cut + 1..], tag, digest))
  {
    hide Strings.Index;
  }

  method ParseReference(ref: string) returns (r: Result<ParsedRef, ParseError>)
    ensures r == Parse(ref)
  {
    hide Strings.Index, Strings.LastIndex, Strings.TrimPrefix, SplitHost, SplitTag, ParseRaw, ParsePart;
    var raw := Strings.TrimPrefix(ref, SCHEME);
    if raw == "" {
      return Failure(EmptyReference);
    }
    hide Parse;
    var tag, digest := "", "";
    var idx := Strings.Index(raw, '@');
    AtStep(ref, raw, idx);
    if idx >= 0 {
      digest := raw[idx + 1..];
      raw := raw[..idx];
    }
    PartStep(raw, digest);
    if digest == "" {
      var slashIdx := Strings.Index(raw, '/');
      TagStep(raw, slashIdx);
      HostStep(raw, "", "", slashIdx);
      if slashIdx < 0 {
        return Failure(MissingRepository);
      }
      var colonIdx := Strings.LastIndex(raw[slashIdx..], ':');
      if colonIdx >= 0 {
        colonIdx := colonIdx + slashIdx;
        tag := raw[colonIdx + 1..];
        raw := raw[..colonIdx];
      }
    }
    assert Parse(ref) == SplitHost(raw, tag, digest);
    var cut := Strings.Index(raw, '/');
    HostStep(raw, tag, digest, cut);
    if cut < 0 {
      return Failure(MissingRepository);
    }
    var host, repository := raw[..cut], raw[cut + 1..];
    if host == "" {
      return Failure(EmptyHost);
    }
    if repository == "" {
      return Failure(EmptyRepository);
    }
    return Success(ParsedRef(host, repository, tag, digest));
  }

  /** What printing loses: a final '@', or a final ':' when there is no '@'. */
  predicate EndsBare(raw: string) {
    var at := Strings.Index(raw, '@');
    raw != "" && (at == |raw| - 1 || (at < 0 && raw[|raw| - 1] == ':'))
  }

  /** What every parsed reference satisfies. */
  predicate IsParsed(r: ParsedRef) {
    && r.host != "" && r.repository != ""
    && '/' !in r.host && '@' !in r.host && '@' !in r.repository
    && (r.digest != "" ==> r.tag == "") && ':' !in r.tag && '@' !in r.tag
  }

  lemma SplitHostMeaning(raw: string, tag: string, digest: string)
    ensures SplitHost(raw, tag, digest).Success? ==>
              var r := SplitHost(raw, tag, digest).value;
              r.host + "/" + r.repository == raw && r.host != "" && r.repository != "" && '/' !in r.host
              && r.tag == tag && r.digest == digest
  {
    Strings.IndexFinds(raw, '/');
  }

  lemma SplitHostForm(host: string, repository: string, tag: string, digest: string)
    requires host != "" && repository != "" && '/' !in host
    ensures SplitHost(host + "/" + repository, tag, digest) == Success(ParsedRef(host, repository, tag, digest))
  {
    hide Strings.Index;
    var raw := host + "/" + repository;
    Strings.IndexIs(host, '/', repository);
    assert raw[..|host|] == host && raw[|host| + 1..] == repository;
  }

  lemma SplitTagMeaning(raw: string)
    requires '/' in raw
    ensures var (rest, tag) := SplitTag(raw);
            ':' !in tag && '/' in rest && (raw == rest + ":" + tag || (raw == rest && tag == "" && raw[|raw| - 1] != ':'))
  {
    hide Strings.Index, Strings.LastIndex, SplitTag;
    var slash := Strings.Index(raw, '/');
    Strings.IndexFinds(raw, '/');
    TagStep(raw, slash);
    TailColon(raw, slash);
  }

  lemma TailColon(raw: string, slash: nat)
    requires slash < |raw| && raw[slash] == '/'
    ensures var colon := Strings.LastIndex(raw[slash..], ':');
            if colon < 0 then raw[|raw| - 1] != ':'
            else ':' !in raw[colon + slash + 1..] && '/' in raw[..colon + slash]
                 && raw == raw[..colon + slash] + ":" + raw[colon + slash + 1..]
  {
    hide Strings.LastIndex;
    var tail := raw[slash..];
    var colon := Strings.LastIndex(tail, ':');
    Strings.LastIndexFinds(tail, ':');
    if colon < 0 {
      assert tail[|tail| - 1] == raw[|raw| - 1];
    } else {
      assert tail[0] == '/' && tail[colon] == raw[colon + slash];
      assert raw[colon + slash + 1..] == tail[colon + 1..];
      assert raw[..colon + slash][slash] == '/';
    }
  }

  /** What a parsed reference left out when printed again. */
  predicate Lost(loss: string) {
    loss == "" || loss == ":" || loss == "@" || loss == ":@"
  }

  lemma ParseRawMeaning(raw: string) returns (loss: string)
    requires ParseRaw(raw).Success?
    ensures IsParsed(ParseRaw(raw).value) && Lost(loss) && raw == Reference(ParseRaw(raw).value) + loss
    ensures loss == "" <==> !EndsBare(raw)
  {
    hide SplitTag, SplitHost, IsParsed;
    var rest, digest := AtMeaning(raw);
    if digest != "" {
      DigestMeaning(rest, digest);
      loss := "";
    } else {
      loss := TagMeaning(rest);
      loss := loss + if rest != raw then "@" else "";
    }
  }

  lemma AtMeaning(raw: string) returns (rest: string, digest: string)
    ensures '@' !in rest && (raw == rest + "@" + digest || (raw == rest && digest == ""))
    ensures ParseRaw(raw) == if digest != "" then SplitHost(rest, "", digest)
                             else SplitHost(SplitTag(rest).0, SplitTag(rest).1, "")
    ensures EndsBare(raw) <==>
              digest == "" && (raw != rest || (rest != "" && rest[|rest| - 1] == ':'))
  {
    hide Strings.Index, SplitTag, SplitHost;
    var at := Strings.Index(raw, '@');
    Strings.IndexFinds(raw, '@');
    digest, rest := if at >= 0 then raw[at + 1..] else "", if at >= 0 then raw[..at] else raw;
  }

  lemma DigestMeaning(rest: string, digest: string)
    requires '@' !in rest && digest != "" && SplitHost(rest, "", digest).Success?
    ensures var r := SplitHost(rest, "", digest).value; IsParsed(r) && rest + "@" + digest == Reference(r)
  {
    SplitHostMeaning(rest, "", digest);
  }

  /** What a reference without digest means, and the bare ':' that it loses. */
  lemma TagMeaning(rest: string) returns (loss: string)
    requires '@' !in rest && SplitHost(SplitTag(rest).0, SplitTag(rest).1, "").Success?
    ensures var r := SplitHost(SplitTag(rest).0, SplitTag(rest).1, "").value;
            IsParsed(r) && r.digest == "" && rest == Reference(r) + loss
    ensures loss == if rest != "" && rest[|rest| - 1] == ':' then ":" else ""
  {
    hide Strings.Index, Strings.LastIndex, SplitTag, SplitHost;
    var (front, tag) := SplitTag(rest);
    SplitHostMeaning(front, tag, "");
    if '/' !in rest { NoSlash(rest); }
    SplitTagMeaning(rest);
    assert front <= rest;
    loss := if front != rest && tag == "" then ":" else "";
    if loss == "" && front != rest {
      assert rest[|rest| - 1] == tag[|tag| - 1];
    }
  }

  lemma NoSlash(raw: string)
    requires '/' !in raw
    ensures SplitTag(raw) == (raw, "")
    ensures forall tag, digest :: SplitHost(raw, tag, digest) == Failure(MissingRepository)
  {
    Strings.IndexFinds(raw, '/');
  }

  /** Printing a parsed reference gives it back without its scheme, unless it ends in a bare '@' or ':'. */
  lemma PrintParsed(s: string)
    requires Parse(s).Success?
    ensures Reference(Parse(s).value) == Strings.TrimPrefix(s, "oci://") <==> !EndsBare(Strings.TrimPrefix(s, "oci://"))
  {
    var loss := ParseRawMeaning(Strings.TrimPrefix(s, SCHEME));
  }

  /** A host and a repository that a reference can name. */
  predicate Named(host: string, repository: string) {
    host != "" && repository != "" && '/' !in host && '@' !in host && '@' !in repository
  }

  lemma ParseDigestForm(host: string, repository: string, digest: string)
    requires Named(host, repository) && digest != ""
    ensures ParseRaw(host + "/" + repository + "@" + digest) == Success(ParsedRef(host, repository, "", digest))
  {
    hide Strings.Index, Strings.LastIndex, SplitTag, SplitHost;
    var front := host + "/" + repository;
    var raw := front + "@" + digest;
    Strings.IndexIs(front, '@', digest);
    assert raw[..|front|] == front && raw[|front| + 1..] == digest;
    SplitHostForm(host, repository, "", digest);
  }

  /** Without '@' a reference is split into front and tag. */
  lemma PlainStep(raw: string)
    requires '@' !in raw
    ensures ParseRaw(raw) == SplitHost(SplitTag(raw).0, SplitTag(raw).1, "")
  {
    hide Strings.Index, Strings.LastIndex, SplitTag, SplitHost;
    Strings.IndexFinds(raw, '@');
  }

  lemma ParseTagForm(host: string, repository: string, tag: string)
    requires Named(host, repository) && ':' !in tag && '@' !in tag
    ensures ParseRaw(host + "/" + repository + ":" + tag) == Success(ParsedRef(host, repository, tag, ""))
  {
    hide ParseRaw, SplitHost, SplitTag;
    PlainStep(host + "/" + repository + ":" + tag);
    TagForm(host, repository, tag);
    SplitHostForm(host, repository, tag, "");
  }

  lemma TagForm(host: string, repository: string, tag: string)
    requires '/' !in host && ':' !in tag
    ensures SplitTag(host + "/" + repository + ":" + tag) == (host + "/" + repository, tag)
  {
    hide Strings.Index, Strings.LastIndex, SplitTag;
    var front, rest := host + "/" + repository, repository + ":" + tag;
    var raw := front + ":" + tag;
    assert raw == host + "/" + rest;
    Strings.IndexIs(host, '/', rest);
    assert raw[|host|..] == "/" + repository + ":" + tag;
    Strings.LastIndexIs("/" + repository, ':', tag);
    TagStep(raw, |host|);
    assert raw[..|front|] == front && raw[|front| + 1..] == tag;
  }

  lemma ParseBareForm(host: string, repository: string)
    requires Named(host, repository) && ':' !in repository
    ensures ParseRaw(host + "/" + repository) == Success(ParsedRef(host, repository, "", ""))
  {
    hide Strings.Index, Strings.LastIndex, ParseRaw, SplitHost, SplitTag;
    var raw := host + "/" + repository;
    Strings.IndexIs(host, '/', repository);
    assert raw[|host|..] == "/" + repository;
    Strings.LastIndexFinds(raw[|host|..], ':');
    TagStep(raw, |host|);
    PlainStep(raw);
    SplitHostForm(host, repository, "", "");
  }

  /** The reference would be taken to start with the scheme. */
  predicate LooksSchemed(r: ParsedRef) {
    "oci://" <= Reference(r)
  }

  /** The references that printing keeps. */
  predicate WellFormed(r: ParsedRef) {
    && IsParsed(r) && !LooksSchemed(r)
    && (r.tag == "" && r.digest == "" ==> ':' !in r.repository)
  }

  /** Parsing a printed reference gives it back exactly if it is well formed. */
  lemma ParsePrinted(r: ParsedRef)
    ensures Parse(Reference(r)) == Success(r) <==> WellFormed(r)
  {
    hide Strings.Index, Strings.LastIndex, ParseRaw;
    var ref := Reference(r);
    if WellFormed(r) {
      assert Strings.TrimPrefix(ref, SCHEME) == ref && ref != "";
      if r.digest != "" {
        ParseDigestForm(r.host, r.repository, r.digest);
      } else if r.tag != "" {
        ParseTagForm(r.host, r.repository, r.tag);
      } else {
        ParseBareForm(r.host, r.repository);
      }
    }
    if Parse(ref) == Success(r) {
      var loss := ParseRawMeaning(Strings.TrimPrefix(ref, SCHEME));
      assert !LooksSchemed(r);
      if r.tag == "" && r.digest == "" && ':' in r.repository {
        ColonIsTag(r.host, r.repository);
      }
    }
  }

  /** A ':' in the repository starts a tag when nothing follows the repository. */
  lemma ColonIsTag(host: string, repository: string)
    requires Named(host, repository) && ':' in repository
    ensures ParseRaw(host + "/" + repository) != Success(ParsedRef(host, repository, "", ""))
  {
    hide Strings.Index, Strings.LastIndex, ParseRaw, SplitHost, SplitTag;
    var raw := host + "/" + repository;
    Strings.IndexIs(host, '/', repository);
    assert raw[|host|..] == "/" + repository;
    Strings.LastIndexFinds(raw[|host|..], ':');
    TagStep(raw, |host|);
    PlainStep(raw);
    FrontIsShorter(raw, SplitTag(raw).0, SplitTag(raw).1);
  }

  lemma FrontIsShorter(raw: string, front: string, tag: string)
    requires |front| < |raw|
    ensures var r := SplitHost(front, tag, ""); r.Success? ==> |r.value.host + "/" + r.value.repository| < |raw|
  {
    SplitHostMeaning(front, tag, "");
  }

  /** The reference for a new version, made from the old reference's text. */
  function BuildUpdateRef(existingRef: string, newVersion: string): string {
    var at := Strings.LastIndex(existingRef, '@');
    if at >= 0 then existingRef[..at] + ":v" + newVersion
    else
      var slash := Strings.LastIndex(existingRef, '/');
      var colon := if slash >= 0 then Strings.LastIndex(existingRef[slash..], ':') else -1;
      if colon >= 0 then existingRef[..slash + colon] + ":v" + newVersion
      else existingRef + ":v" + newVersion
  }

  /** A reference without its tag, from its text. */
  function StripTag(ref: string): string {
    var raw := Strings.TrimPrefix(ref, SCHEME);
    SplitTag(raw).0
  }

  /** An exact reference for a locked plugin. */
  function PinnedRef(ref: string, digest: string): string {
    if digest != "" && '@' !in ref then StripTag(ref) + "@" + digest else ref
  }

  /** Pinning a reference keeps its host and repository exactly if it does not carry the scheme twice. */
  lemma PinKeepsName(ref: string, digest: string)
    requires Parse(ref).Success? && '@' !in ref && digest != ""
    ensures var r := Parse(ref).value;
            Parse(PinnedRef(ref, digest)) == Success(ParsedRef(r.host, r.repository, "", digest)) <==>
            !(SCHEME <= Strings.TrimPrefix(ref, SCHEME))
  {
    hide Strings.Index, Strings.LastIndex, SplitHost, SplitTag;
    var raw, r := Strings.TrimPrefix(ref, SCHEME), Parse(ref).value;
    var pinned := ParsedRef(r.host, r.repository, "", digest);
    StripTagMeaning(raw);
    SchemeOfFront(r.host, r.repository, raw);
    SchemeOfFront(r.host, r.repository, Reference(pinned));
    assert PinnedRef(ref, digest) == Reference(pinned);
    ParsePrinted(pinned);
  }

  /** Stripping the tag leaves host and repository. */
  lemma StripTagMeaning(raw: string)
    requires ParseRaw(raw).Success? && '@' !in raw
    ensures var r := ParseRaw(raw).value;
            SplitTag(raw).0 == r.host + "/" + r.repository && IsParsed(r) && r.digest == "" && SplitTag(raw).0 <= raw
  {
    hide ParseRaw, SplitHost, SplitTag;
    PlainStep(raw);
    var loss := TagMeaning(raw);
    if '/' in raw { SplitTagMeaning(raw); } else { NoSlash(raw); }
    SplitHostMeaning(SplitTag(raw).0, SplitTag(raw).1, "");
  }

  /** Whether text looks schemed is settled within host and repository. */
  lemma SchemeOfFront(host: string, repository: string, raw: string)
    requires Named(host, repository) && host + "/" + repository <= raw
    ensures SCHEME <= raw <==> SCHEME <= host + "/" + repository
  {
    var front := host + "/" + repository;
    assert front[|host|] == '/' && raw[|host|] == '/';
    forall i | 0 <= i < |host| ensures raw[i] != '/' {
      assert raw[i] == front[i] == host[i];
    }
    if SCHEME <= raw {
      assert raw[4] == '/' && raw[0] != '/' && raw[1] != '/' && raw[2] != '/' && raw[3] != '/';
      assert |front| >= 6;
    }
  }

  /** Text that prints a reference, with or without the scheme. */
  predicate Prints(s: string, r: ParsedRef) {
    s == Reference(r) || s == "oci://" + Reference(r)
  }

  lemma ParsePrefixed(pre: string, r: ParsedRef, rest: string)
    requires WellFormed(r) && (pre == "" || pre == SCHEME)
    ensures Parse(pre + (r.host + "/" + r.repository + rest)) == ParseRaw(r.host + "/" + r.repository + rest)
  {
    hide ParseRaw;
    var raw := r.host + "/" + r.repository + rest;
    SchemeOfFront(r.host, r.repository, raw);
    SchemeOfFront(r.host, r.repository, Reference(r));
    assert pre == "" ==> pre + raw == raw;
    assert pre == SCHEME ==> (pre + raw)[|SCHEME|..] == raw;
  }

  /** In the text of a reference, what is cut off for the new version. */
  lemma UpdateText(pre: string, r: ParsedRef, newVersion: string) returns (kept: string)
    requires WellFormed(r) && (pre == "" || pre == SCHEME)
    ensures BuildUpdateRef(pre + Reference(r), newVersion) == pre + (r.host + "/" + r.repository + kept + ":v" + newVersion)
    ensures if r.digest != "" && '@' in r.digest then kept != "" && kept[0] == '@'
            else if '/' in r.tag then kept == ":" + r.tag
            else kept == ""
  {
    hide BuildUpdateRef, LooksSchemed;
    var front := pre + (r.host + "/" + r.repository);
    var s := pre + Reference(r);
    if r.digest != "" {
      assert s == front + ['@'] + r.digest;
      kept := UpdateDigestText(front, s, r.digest, newVersion);
      Reassociate(pre, r.host + "/" + r.repository, kept, ":v", newVersion);
    } else {
      TagText(pre, r, front, s);
      kept := UpdateTagText(front, s, r.tag, newVersion, |pre| + |r.host|);
      Reassociate(pre, r.host + "/" + r.repository, kept, ":v", newVersion);
    }
  }

  lemma TagText(pre: string, r: ParsedRef, front: string, s: string)
    requires WellFormed(r) && r.digest == "" && (pre == "" || pre == SCHEME)
    requires front == pre + (r.host + "/" + r.repository) && s == pre + Reference(r)
    ensures '@' !in s && |pre| + |r.host| < |front| && front[|pre| + |r.host|] == '/' && ':' !in r.tag
    ensures if r.tag != "" then s == front + ":" + r.tag else s == front && ':' !in front[|pre| + |r.host|..]
  {
    hide LooksSchemed;
    assert front[|pre| + |r.host|..] == "/" + r.repository;
  }

  lemma Reassociate(a: string, b: string, c: string, d: string, e: string)
    ensures a + b + c + d + e == a + (b + c + d + e)
  {
  }

  lemma UpdateDigestText(front: string, s: string, digest: string, newVersion: string) returns (kept: string)
    requires s == front + ['@'] + digest
    ensures if '@' in digest then kept != "" && kept[0] == '@' else kept == ""
    ensures BuildUpdateRef(s, newVersion) == front + kept + ":v" + newVersion
  {
    hide Strings.Index, Strings.LastIndex;
    var at := Strings.LastIndex(s, '@');
    if '@' in digest {
      LastInTail(front + ['@'], '@', digest);
      kept := s[|front|..at];
      assert s[..at] == front + kept;
    } else {
      Strings.LastIndexIs(front, '@', digest);
      assert s[..at] == front;
      kept := "";
      assert front + kept == front;
    }
  }

  lemma LastInTail(front: string, c: char, rest: string)
    requires c in rest
    ensures |front| <= Strings.LastIndex(front + rest, c)
  {
    hide Strings.LastIndex;
    var s := front + rest;
    var i :| 0 <= i < |rest| && rest[i] == c;
    Strings.LastIndexAtLeast(s, c, |front| + i);
  }

  lemma UpdateTagText(front: string, s: string, tag: string, newVersion: string, cut: nat) returns (kept: string)
    requires '@' !in s && cut < |front| && front[cut] == '/' && ':' !in tag
    requires tag != "" ==> s == front + ":" + tag
    requires tag == "" ==> s == front && ':' !in front[cut..]
    ensures kept == if '/' in tag then ":" + tag else ""
    ensures BuildUpdateRef(s, newVersion) == front + kept + ":v" + newVersion
  {
    hide Strings.Index, Strings.LastIndex, BuildUpdateRef;
    kept := if '/' in tag then ":" + tag else "";
    var slash := LastSlash(front, s, tag, cut);
    UpdateStep(s, newVersion, slash);
    if tag == "" {
      NoColonAfter(front, cut, slash);
    } else if '/' in tag {
      NoColonIn(front, s, tag, slash);
    } else {
      assert s[slash..] == front[slash..] + ":" + tag;
      Strings.LastIndexIs(front[slash..], ':', tag);
      assert s[..|front|] == front;
    }
    assert front + kept == if '/' in tag then s else front;
  }

  lemma UpdateStep(s: string, newVersion: string, slash: nat)
    requires '@' !in s && slash == Strings.LastIndex(s, '/')
    ensures var colon := Strings.LastIndex(s[slash..], ':');
            BuildUpdateRef(s, newVersion) == if colon < 0 then s + ":v" + newVersion else s[..slash + colon] + ":v" + newVersion
  {
    hide Strings.LastIndex;
    Strings.LastIndexFinds(s, '@');
  }

  lemma LastSlash(front: string, s: string, tag: string, cut: nat) returns (slash: nat)
    requires cut < |front| && front[cut] == '/'
    requires if tag == "" then s == front else s == front + ":" + tag
    ensures slash == Strings.LastIndex(s, '/')
    ensures if '/' in tag then |front| < slash else cut <= slash < |front|
  {
    hide Strings.LastIndex;
    Strings.LastIndexFinds(s, '/');
    Strings.LastIndexAtLeast(s, '/', cut);
    slash := Strings.LastIndex(s, '/');
    if '/' in tag {
      assert s == (front + ":") + tag;
      LastInTail(front + ":", '/', tag);
    }
  }

  lemma NoColonAfter(front: string, cut: nat, slash: nat)
    requires cut <= slash <= |front| && ':' !in front[cut..]
    ensures Strings.LastIndex(front[slash..], ':') < 0
  {
    hide Strings.LastIndex;
    Strings.LastIndexFinds(front[slash..], ':');
    assert front[slash..] == front[cut..][slash - cut..];
  }

  lemma NoColonIn(front: string, s: string, tag: string, slash: nat)
    requires s == front + ":" + tag && ':' !in tag && |front| < slash < |s|
    ensures Strings.LastIndex(s[slash..], ':') < 0
  {
    hide Strings.LastIndex;
    Strings.LastIndexFinds(s[slash..], ':');
    assert s[slash..] == tag[slash - |front| - 1..];
  }

  /**
   Updating a well-formed reference changes the tag and nothing else exactly if its tag has no '/', its digest has no
   '@', and the version could be part of a tag.
   */
  lemma UpdateChangesOnlyTag(s: string, r: ParsedRef, newVersion: string)
    requires WellFormed(r) && Prints(s, r)
    ensures Parse(BuildUpdateRef(s, newVersion)) == Success(ParsedRef(r.host, r.repository, "v" + newVersion, "")) <==>
            '/' !in r.tag && '@' !in r.digest && ':' !in newVersion && '@' !in newVersion
  {
    hide ParseRaw, BuildUpdateRef, Parse, IsParsed, LooksSchemed, Reference;
    var pre := if s == Reference(r) then "" else SCHEME;
    assert s == pre + Reference(r);
    var kept := UpdateText(pre, r, newVersion);
    NamesOf(r);
    var rest := kept + ":v" + newVersion;
    var raw := r.host + "/" + r.repository + rest;
    assert raw == r.host + "/" + r.repository + kept + ":v" + newVersion;
    ParsePrefixed(pre, r, rest);
    TagCharacters(newVersion);
    if ParseRaw(raw).Success? {
      var loss := ParseRawMeaning(raw);
      ParsedNames(ParseRaw(raw).value);
    }
    if kept != "" && kept[0] == '@' {
      assert raw == r.host + "/" + r.repository + "@" + rest[1..];
      ParseDigestForm(r.host, r.repository, rest[1..]);
    } else if ':' !in newVersion && '@' !in newVersion {
      UpdateGivesTag(r, kept, newVersion);
      assert r.repository + kept == r.repository <==> kept == "" by {
        assert |r.repository + kept| == |r.repository| + |kept|;
      }
    }
  }

  lemma UpdateGivesTag(r: ParsedRef, kept: string, newVersion: string)
    requires Named(r.host, r.repository) && '@' !in kept && ':' !in newVersion && '@' !in newVersion
    ensures ParseRaw(r.host + "/" + r.repository + kept + ":v" + newVersion)
              == Success(ParsedRef(r.host, r.repository + kept, "v" + newVersion, ""))
  {
    hide ParseRaw;
    var repository, tag := r.repository + kept, "v" + newVersion;
    assert r.host + "/" + r.repository + kept + ":v" + newVersion == r.host + "/" + repository + ":" + tag;
    ParseTagForm(r.host, repository, tag);
  }

  lemma NamesOf(r: ParsedRef)
    requires WellFormed(r)
    ensures Named(r.host, r.repository) && '@' !in r.tag && (r.digest != "" ==> r.tag == "")
  {
  }

  lemma ParsedNames(r: ParsedRef)
    requires IsParsed(r)
    ensures ':' !in r.tag && '@' !in r.tag
  {
  }

  lemma TagCharacters(v: string)
    ensures ':' !in "v" + v && '@' !in "v" + v <==> ':' !in v && '@' !in v
  {
    assert forall c :: c in v ==> c in "v" + v;
  }
}
