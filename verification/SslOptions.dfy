/**
  The client's SSL options: how sslopt-case.h moves `opt_ssl_mode` option by option, and what
  `set_client_ssl_options` of sslopt-vars.h then hands to the connection.
 */
module SslOptions {
  import opened Wrappers

  /** The values of enum mysql_ssl_mode. */
  const DISABLED := 1
  const PREFERRED := 2
  const REQUIRED := 3
  const VERIFY_CA := 4
  const VERIFY_IDENTITY := 5

  type Mode = m: int | DISABLED <= m <= VERIFY_IDENTITY witness DISABLED

  /** An option on the command line; `SslMode` has passed find_type_or_exit, which exits on other names. */
  datatype Choice =
    | SslMode(mode: Mode)
    | Ssl(on: bool)
    | VerifyServerCert(on: bool)
    | Ca(file: string)
    | CaPath(dir: string)
    | Key(file: string)
    | Cert(file: string)
    | Cipher(list: string)
    | Crl(file: string)
    | CrlPath(dir: string)
    | TlsVersion(list: string)

  datatype Config = Config(
    mode: Mode, explicit: bool,
    ca: Option<string>, caPath: Option<string>, cert: Option<string>, cipher: Option<string>,
    key: Option<string>, crl: Option<string>, crlPath: Option<string>, tlsVersion: Option<string>)

  const Initial := Config(PREFERRED, false, None, None, None, None, None, None, None, None)

  /** What the connection is given. */
  datatype Settings = Settings(
    key: Option<string>, cert: Option<string>, ca: Option<string>, caPath: Option<string>, cipher: Option<string>,
    crl: Option<string>, crlPath: Option<string>, tlsVersion: Option<string>, mode: Mode, warned: bool)

  function AfterCa(c: Config): Config {
    if c.explicit then c else c.(mode := VERIFY_CA)
  }

  function AfterOther(c: Config, yassl: bool): Config {
    if yassl then c.(crl := None, crlPath := None) else c
  }

  /** The generic option parser has stored the argument in the option's own variable. */
  function Stored(c: Config, choice: Choice): Config {
    match choice
    case Key(f) => c.(key := Some(f))
    case Cert(f) => c.(cert := Some(f))
    case Cipher(l) => c.(cipher := Some(l))
    case Crl(f) => c.(crl := Some(f))
    case CrlPath(d) => c.(crlPath := Some(d))
    case TlsVersion(l) => c.(tlsVersion := Some(l))
    case _ => c
  }

  /** The effect of one option. `yassl` is HAVE_YASSL, where the crl options have no effect. */
  function Handle(c: Config, choice: Choice, yassl: bool): Config {
    match choice
    case SslMode(m) => c.(mode := m, explicit := true)
    case Ssl(on) =>
      if !on then c.(mode := DISABLED) else if c.mode < REQUIRED then c.(mode := REQUIRED) else c
    case VerifyServerCert(on) =>
      if on then c.(mode := VERIFY_IDENTITY) else if c.mode >= VERIFY_IDENTITY then c.(mode := VERIFY_CA) else c
    case Ca(f) => AfterCa(c.(ca := Some(f)))
    case CaPath(d) => AfterCa(c.(caPath := Some(d)))
    case _ => AfterOther(Stored(c, choice), yassl)
  }

  function HandleAll(c: Config, choices: seq<Choice>, yassl: bool): Config {
    if choices == [] then c
    else Handle(HandleAll(c, choices[..|choices| - 1], yassl), choices[|choices| - 1], yassl)
  }

  // ---------------------------------------------------------------- the final mode, in closed form

  predicate IsSslMode(choice: Choice) { choice.SslMode? }

  predicate IsCa(choice: Choice) { choice.Ca? || choice.CaPath? }

  /** Whether `--ssl-mode` has been given. */
  predicate Explicit(choices: seq<Choice>) {
    exists i :: 0 <= i < |choices| && IsSslMode(choices[i])
  }

  /** The mode an option sets outright, if it does, given the options before it. */
  function Outright(before: seq<Choice>, choice: Choice): Option<Mode> {
    match choice
    case SslMode(m) => Some(m)
    case Ssl(on) => if on then None else Some(DISABLED)
    case VerifyServerCert(on) => if on then Some(VERIFY_IDENTITY) else None
    case _ => if IsCa(choice) && !Explicit(before) then Some(VERIFY_CA) else None
  }

  /** The position just after the last option that sets the mode outright, 0 if there is none. */
  function LastOutright(choices: seq<Choice>): (k: nat)
    ensures k <= |choices|
    ensures k > 0 ==> Outright(choices[..k - 1], choices[k - 1]).Some?
    ensures forall i :: k <= i < |choices| ==> Outright(choices[..i], choices[i]) == None
  {
    if choices == [] then 0
    else
      var before := choices[..|choices| - 1];
      var k := LastOutright(before);
      assert forall i :: 0 <= i <= |before| ==> choices[..i] == before[..i];
      if Outright(before, choices[|choices| - 1]).Some? then |choices| else k
  }

  predicate RaisedAfter(choices: seq<Choice>, k: nat) {
    exists i :: k <= i < |choices| && choices[i] == Ssl(true)
  }

  predicate CappedAfter(choices: seq<Choice>, k: nat) {
    exists i :: k <= i < |choices| && choices[i] == VerifyServerCert(false)
  }

  function Adjusted(mode: Mode, raised: bool, capped: bool): Mode {
    var m := if raised && mode < REQUIRED then REQUIRED else mode;
    if capped && m > VERIFY_CA then VERIFY_CA else m
  }

  /**
    The final mode, read off the list: start from the last option that set the mode outright; if an
    enabling --ssl follows it, at least REQUIRED; if a disabling --ssl-verify-server-cert follows it,
    at most VERIFY_CA.
   */
  function FinalMode(choices: seq<Choice>): Mode {
    var k := LastOutright(choices);
    var base := if k == 0 then PREFERRED else Outright(choices[..k - 1], choices[k - 1]).value;
    Adjusted(base, RaisedAfter(choices, k), CappedAfter(choices, k))
  }

  lemma ModeAfterOne(c: Config, before: seq<Choice>, last: Choice, yassl: bool)
    requires c.explicit == Explicit(before)
    ensures Handle(c, last, yassl).explicit == (c.explicit || last.SslMode?)
    ensures Handle(c, last, yassl).mode ==
            match Outright(before, last)
            case Some(m) => m
            case None => Adjusted(c.mode, last == Ssl(true), last == VerifyServerCert(false))
  {
  }

  lemma AfterSnoc(before: seq<Choice>, last: Choice, k: nat)
    requires k <= |before|
    ensures RaisedAfter(before + [last], k) <==> RaisedAfter(before, k) || last == Ssl(true)
    ensures CappedAfter(before + [last], k) <==> CappedAfter(before, k) || last == VerifyServerCert(false)
  {
    var all := before + [last];
    assert all[|before|] == last;
    if RaisedAfter(before, k) {
      var i :| k <= i < |before| && before[i] == Ssl(true);
      assert all[i] == Ssl(true);
    }
    if CappedAfter(before, k) {
      var i :| k <= i < |before| && before[i] == VerifyServerCert(false);
      assert all[i] == VerifyServerCert(false);
    }
  }

  lemma FinalModeSnoc(before: seq<Choice>, last: Choice)
    requires Outright(before, last) == None
    ensures FinalMode(before + [last]) == Adjusted(FinalMode(before), last == Ssl(true), last == VerifyServerCert(false))
  {
    var all := before + [last];
    assert all[..|before|] == before && all[|all| - 1] == last;
    var k := LastOutright(before);
    assert LastOutright(all) == k;
    assert k > 0 ==> all[..k - 1] == before[..k - 1];
    AfterSnoc(before, last, k);
  }

  lemma ExplicitSnoc(before: seq<Choice>, last: Choice)
    ensures Explicit(before + [last]) <==> Explicit(before) || last.SslMode?
  {
    var all := before + [last];
    if Explicit(before) {
      var i :| 0 <= i < |before| && IsSslMode(before[i]);
      assert IsSslMode(all[i]);
    }
    assert IsSslMode(all[|before|]) <==> last.SslMode?;
  }

  lemma {:induction false} ModeIsFinalMode(choices: seq<Choice>, yassl: bool)
    ensures HandleAll(Initial, choices, yassl).mode == FinalMode(choices)
    ensures HandleAll(Initial, choices, yassl).explicit == Explicit(choices)
  {
    if choices == [] {
    } else {
      var before, last := choices[..|choices| - 1], choices[|choices| - 1];
      ModeIsFinalMode(before, yassl);
      assert choices == before + [last];
      ExplicitSnoc(before, last);
      ModeAfterOne(HandleAll(Initial, before, yassl), before, last, yassl);
      if Outright(before, last) == None {
        FinalModeSnoc(before, last);
      } else {
      }
    }
  }

  // ---------------------------------------------------------------- what follows over whole lists

  /** After an explicit --ssl-mode, a CA option never changes the mode. */
  lemma ExplicitModeResistsCa(choices: seq<Choice>, ca: Choice, yassl: bool)
    requires Explicit(choices) && IsCa(ca)
    ensures HandleAll(Initial, choices + [ca], yassl).mode == HandleAll(Initial, choices, yassl).mode
  {
    assert (choices + [ca])[..|choices|] == choices;
    ModeIsFinalMode(choices, yassl);
  }

  lemma {:induction false} HandleAllAppend(c: Config, first: seq<Choice>, rest: seq<Choice>, yassl: bool)
    ensures HandleAll(c, first + rest, yassl) == HandleAll(HandleAll(c, first, yassl), rest, yassl)
    decreases |rest|
  {
    var all := first + rest;
    if rest == [] {
      assert all == first;
    } else {
      HandleAllAppend(c, first, rest[..|rest| - 1], yassl);
      assert all[..|all| - 1] == first + rest[..|rest| - 1];
    }
  }

  lemma {:induction false} RequiredStays(c: Config, rest: seq<Choice>, yassl: bool)
    requires c.mode >= REQUIRED
    requires forall i :: 0 <= i < |rest| ==> !rest[i].SslMode? && rest[i] != Ssl(false)
    ensures HandleAll(c, rest, yassl).mode >= REQUIRED
  {
    if rest == [] {
    } else {
      RequiredStays(c, rest[..|rest| - 1], yassl);
    }
  }

  /** After an enabling --ssl, wherever it comes, at least REQUIRED until --ssl-mode or a disabling --ssl. */
  lemma EnabledStaysRequired(choices: seq<Choice>, rest: seq<Choice>, yassl: bool)
    requires forall i :: 0 <= i < |rest| ==> !rest[i].SslMode? && rest[i] != Ssl(false)
    ensures HandleAll(Initial, choices + [Ssl(true)] + rest, yassl).mode >= REQUIRED
  {
    var first := choices + [Ssl(true)];
    HandleAllAppend(Initial, first, rest, yassl);
    assert first[..|first| - 1] == choices;
    RequiredStays(HandleAll(Initial, first, yassl), rest, yassl);
  }

  /** The modes that single options ask for, by their numbers on the wire. */
  lemma ModeNumbers(file: string)
    ensures FinalMode([]) == 2 && FinalMode([Ssl(false)]) == 1 && FinalMode([Ssl(true)]) == 3
    ensures FinalMode([Ca(file)]) == 4 && FinalMode([CaPath(file)]) == 4 && FinalMode([VerifyServerCert(true)]) == 5
  {
    assert FinalMode([]) == PREFERRED;
    ModeIsFinalMode([Ssl(false)], false);
    ModeIsFinalMode([Ssl(true)], false);
    ModeIsFinalMode([Ca(file)], false);
    ModeIsFinalMode([CaPath(file)], false);
    ModeIsFinalMode([VerifyServerCert(true)], false);
  }

  predicate Mild(choice: Choice) {
    !choice.SslMode? && choice != Ssl(false) && choice != VerifyServerCert(true)
  }

  predicate KeepsIdentity(choice: Choice, explicit: bool) {
    choice != VerifyServerCert(false) && (IsCa(choice) ==> explicit)
  }

  lemma IdentityAfterOne(c: Config, choice: Choice, yassl: bool)
    requires Mild(choice)
    ensures Handle(c, choice, yassl).mode == VERIFY_IDENTITY <==>
            (c.mode == VERIFY_IDENTITY && KeepsIdentity(choice, c.explicit))
  {
  }

  lemma {:induction false} ExplicitMiddle(choices: seq<Choice>, rest: seq<Choice>)
    requires forall i :: 0 <= i < |rest| ==> !rest[i].SslMode?
    ensures Explicit(choices + [VerifyServerCert(true)] + rest) <==> Explicit(choices)
    decreases |rest|
  {
    var before := choices + [VerifyServerCert(true)];
    ExplicitSnoc(choices, VerifyServerCert(true));
    if rest == [] {
      assert before + rest == before;
    } else {
      ExplicitMiddle(choices, rest[..|rest| - 1]);
      ExplicitSnoc(before + rest[..|rest| - 1], rest[|rest| - 1]);
      assert before + rest == before + rest[..|rest| - 1] + [rest[|rest| - 1]];
    }
  }

  /**
    The order of options matters: after an enabling --ssl-verify-server-cert, with no further option
    that asks for another mode by name, the mode stays VERIFY_IDENTITY if and only if neither a
    disabling --ssl-verify-server-cert nor, without an earlier --ssl-mode, a CA option follows.
   */
  lemma {:induction false} IdentityKeptIff(choices: seq<Choice>, rest: seq<Choice>, yassl: bool)
    requires forall i :: 0 <= i < |rest| ==> Mild(rest[i])
    ensures HandleAll(Initial, choices + [VerifyServerCert(true)] + rest, yassl).mode == VERIFY_IDENTITY <==>
            forall i :: 0 <= i < |rest| ==> KeepsIdentity(rest[i], Explicit(choices))
    decreases |rest|
  {
    var before := choices + [VerifyServerCert(true)];
    var all := before + rest;
    if rest == [] {
      assert all == before && before[..|before| - 1] == choices;
    } else {
      var most, last := rest[..|rest| - 1], rest[|rest| - 1];
      IdentityKeptIff(choices, most, yassl);
      assert all[..|all| - 1] == before + most && all[|all| - 1] == last;
      ModeIsFinalMode(before + most, yassl);
      ExplicitMiddle(choices, most);
      IdentityAfterOne(HandleAll(Initial, before + most, yassl), last, yassl);
      assert rest == most + [last];
    }
  }

  /** For instance: a CA option after `--ssl-verify-server-cert` takes the check of the host name away again. */
  lemma CaTakesIdentityAway(file: string, yassl: bool)
    ensures HandleAll(Initial, [VerifyServerCert(true), Ca(file)], yassl).mode == VERIFY_CA
  {
    var first := [VerifyServerCert(true)];
    assert (first + [Ca(file)])[..1] == first && first[..0] == [];
    assert [VerifyServerCert(true), Ca(file)] == first + [Ca(file)];
    assert HandleAll(Initial, first, yassl) == Handle(HandleAll(Initial, [], yassl), first[0], yassl);
  }

  // ---------------------------------------------------------------- what the connection is given

  function LastCa(choices: seq<Choice>): Option<string> {
    if choices == [] then None
    else
      var last := choices[|choices| - 1];
      if last.Ca? then Some(last.file) else LastCa(choices[..|choices| - 1])
  }

  function LastCaPath(choices: seq<Choice>): Option<string> {
    if choices == [] then None
    else
      var last := choices[|choices| - 1];
      if last.CaPath? then Some(last.dir) else LastCaPath(choices[..|choices| - 1])
  }

  predicate CaGiven(choices: seq<Choice>) {
    exists i :: 0 <= i < |choices| && IsCa(choices[i])
  }

  /** There is a last CA option if any was given, ... */
  lemma {:induction false} CaGivenIffLast(choices: seq<Choice>)
    ensures CaGiven(choices) <==> LastCa(choices).Some? || LastCaPath(choices).Some?
  {
    if choices == [] {
    } else {
      var before, last := choices[..|choices| - 1], choices[|choices| - 1];
      CaGivenIffLast(before);
      assert choices == before + [last];
    }
  }

  lemma CaAfterOne(c: Config, choice: Choice, yassl: bool)
    ensures Handle(c, choice, yassl).ca == if choice.Ca? then Some(choice.file) else c.ca
    ensures Handle(c, choice, yassl).caPath == if choice.CaPath? then Some(choice.dir) else c.caPath
  {
  }

  /** ... and it is the one that is kept. */
  lemma {:induction false} LastCaIsKept(choices: seq<Choice>, yassl: bool)
    ensures HandleAll(Initial, choices, yassl).ca == LastCa(choices)
    ensures HandleAll(Initial, choices, yassl).caPath == LastCaPath(choices)
  {
    if choices == [] {
    } else {
      var before, last := choices[..|choices| - 1], choices[|choices| - 1];
      LastCaIsKept(before, yassl);
      CaAfterOne(HandleAll(Initial, before, yassl), last, yassl);
    }
  }

  /** Whether two options set the same variable. */
  predicate SameKind(a: Choice, b: Choice) {
    (a.Key? && b.Key?) || (a.Cert? && b.Cert?) || (a.Cipher? && b.Cipher?) || (a.Crl? && b.Crl?) ||
    (a.CrlPath? && b.CrlPath?) || (a.TlsVersion? && b.TlsVersion?)
  }

  /** A config in which the argument of `choice` is what its variable holds; yaSSL keeps no crl. */
  predicate Kept(c: Config, choice: Choice, yassl: bool) {
    match choice
    case Key(f) => c.key == Some(f)
    case Cert(f) => c.cert == Some(f)
    case Cipher(l) => c.cipher == Some(l)
    case TlsVersion(l) => c.tlsVersion == Some(l)
    case Crl(f) => c.crl == if yassl then None else Some(f)
    case CrlPath(d) => c.crlPath == if yassl then None else Some(d)
    case _ => true
  }

  lemma SettingsAfterOne(c: Config, choice: Choice, yassl: bool)
    ensures var c' := Handle(c, choice, yassl);
            (c'.key == c.key || choice.Key?) && (c'.cert == c.cert || choice.Cert?) &&
            (c'.cipher == c.cipher || choice.Cipher?) && (c'.tlsVersion == c.tlsVersion || choice.TlsVersion?) &&
            (c'.crl == c.crl || choice.Crl? || (yassl && c'.crl == None)) &&
            (c'.crlPath == c.crlPath || choice.CrlPath? || (yassl && c'.crlPath == None))
  {
  }

  lemma KeptUntilNext(c: Config, choice: Choice, next: Choice, yassl: bool)
    requires Kept(c, choice, yassl) && !SameKind(next, choice)
    ensures Kept(Handle(c, next, yassl), choice, yassl)
  {
    SettingsAfterOne(c, next, yassl);
  }

  /** Over every list the last option of a kind is the one that is kept; yaSSL keeps no crl. */
  lemma {:induction false} LastSettingIsKept(choices: seq<Choice>, i: nat, yassl: bool)
    requires i < |choices|
    requires choices[i].Key? ==> forall j :: i < j < |choices| ==> !choices[j].Key?
    requires choices[i].Cert? ==> forall j :: i < j < |choices| ==> !choices[j].Cert?
    requires choices[i].Cipher? ==> forall j :: i < j < |choices| ==> !choices[j].Cipher?
    requires choices[i].TlsVersion? ==> forall j :: i < j < |choices| ==> !choices[j].TlsVersion?
    requires choices[i].Crl? ==> forall j :: i < j < |choices| ==> !choices[j].Crl?
    requires choices[i].CrlPath? ==> forall j :: i < j < |choices| ==> !choices[j].CrlPath?
    ensures Kept(HandleAll(Initial, choices, yassl), choices[i], yassl)
    ensures var c := HandleAll(Initial, choices, yassl);
            match choices[i]
            case Key(f) => c.key == Some(f)
            case Cert(f) => c.cert == Some(f)
            case Cipher(l) => c.cipher == Some(l)
            case TlsVersion(l) => c.tlsVersion == Some(l)
            case Crl(f) => c.crl == if yassl then None else Some(f)
            case CrlPath(d) => c.crlPath == if yassl then None else Some(d)
            case _ => true
    decreases |choices|
  {
    if i == |choices| - 1 {
    } else {
      var before, last := choices[..|choices| - 1], choices[|choices| - 1];
      assert before[i] == choices[i] && forall j :: i < j < |before| ==> before[j] == choices[j];
      LastSettingIsKept(before, i, yassl);
      KeptUntilNext(HandleAll(Initial, before, yassl), choices[i], last, yassl);
    }
  }

  /** And nothing else: a setting that no option has given stays unset. */
  lemma {:induction false} UngivenStaysUnset(choices: seq<Choice>, yassl: bool)
    ensures var c := HandleAll(Initial, choices, yassl);
            ((forall i :: 0 <= i < |choices| ==> !choices[i].Key?) ==> c.key == None) &&
            ((forall i :: 0 <= i < |choices| ==> !choices[i].Cert?) ==> c.cert == None) &&
            ((forall i :: 0 <= i < |choices| ==> !choices[i].Cipher?) ==> c.cipher == None) &&
            ((forall i :: 0 <= i < |choices| ==> !choices[i].TlsVersion?) ==> c.tlsVersion == None) &&
            ((forall i :: 0 <= i < |choices| ==> !choices[i].Crl?) ==> c.crl == None) &&
            ((forall i :: 0 <= i < |choices| ==> !choices[i].CrlPath?) ==> c.crlPath == None)
  {
    if choices == [] {
    } else {
      var before, last := choices[..|choices| - 1], choices[|choices| - 1];
      UngivenStaysUnset(before, yassl);
      assert forall i :: 0 <= i < |before| ==> before[i] == choices[i];
      SettingsAfterOne(HandleAll(Initial, before, yassl), last, yassl);
    }
  }

  /** With yaSSL every one of these options, whichever it is, unsets both crl settings; the others leave them alone. */
  lemma YasslDropsCrl(c: Config, choice: Choice)
    ensures choice.Key? || choice.Cert? || choice.Cipher? || choice.Crl? || choice.CrlPath? || choice.TlsVersion? ==>
              Handle(c, choice, true).crl == None && Handle(c, choice, true).crlPath == None
    ensures choice.SslMode? || choice.Ssl? || choice.VerifyServerCert? || choice.Ca? || choice.CaPath? ==>
              Handle(c, choice, true).crl == c.crl && Handle(c, choice, true).crlPath == c.crlPath
  {
  }

  /** At `j` encryption is turned off after a CA option, and nothing later asks for the certificate to be verified. */
  ghost predicate SwitchedOff(choices: seq<Choice>, j: int) {
    && 0 <= j < |choices| && choices[j] == Ssl(false) && CaGiven(choices[..j])
    && forall k :: j < k < |choices| ==> !IsCa(choices[k]) && choices[k] != VerifyServerCert(true)
  }

  lemma NoneBefore(choices: seq<Choice>, i: nat)
    requires !Explicit(choices) && i < |choices|
    ensures !Explicit(choices[..i]) && !choices[i].SslMode?
  {
  }

  lemma LowModeIsSwitchedOff(choices: seq<Choice>)
    requires forall i :: 0 <= i < |choices| ==> !Explicit(choices[..i]) && !choices[i].SslMode?
    requires CaGiven(choices) && FinalMode(choices) < VERIFY_CA
    ensures exists j :: SwitchedOff(choices, j)
  {
    var k := LastOutright(choices);
    var i :| 0 <= i < |choices| && IsCa(choices[i]);
    assert Outright(choices[..i], choices[i]).Some?;
    assert i < k - 1;
    assert IsCa(choices[..k - 1][i]);
    assert SwitchedOff(choices, k - 1);
  }

  lemma SwitchedOffIsLow(choices: seq<Choice>, j: int)
    requires forall i :: 0 <= i < |choices| ==> !Explicit(choices[..i]) && !choices[i].SslMode?
    requires SwitchedOff(choices, j)
    ensures CaGiven(choices) && FinalMode(choices) < VERIFY_CA
  {
  }

  /**
    A given CA is dropped without the warning if and only if no --ssl-mode is given and a disabling --ssl
    follows it that no CA option and no enabling --ssl-verify-server-cert follows.
   */
  lemma DroppedSilentlyIff(choices: seq<Choice>)
    ensures (CaGiven(choices) && FinalMode(choices) < VERIFY_CA && !Explicit(choices)) <==>
            (!Explicit(choices) && exists j :: SwitchedOff(choices, j))
  {
    if !Explicit(choices) {
      forall i | 0 <= i < |choices| ensures !Explicit(choices[..i]) && !choices[i].SslMode? { NoneBefore(choices, i); }
      if CaGiven(choices) && FinalMode(choices) < VERIFY_CA { LowModeIsSwitchedOff(choices); }
      if j :| SwitchedOff(choices, j) { SwitchedOffIsLow(choices, j); }
    }
  }

  /** For instance `--ssl-ca=file --skip-ssl`. */
  lemma SkipSslDropsCa(file: string)
    ensures !Explicit([Ca(file), Ssl(false)]) && SwitchedOff([Ca(file), Ssl(false)], 1)
  {
    var choices := [Ca(file), Ssl(false)];
    assert choices[..1] == [Ca(file)] && IsCa(choices[..1][0]);
  }

  /** The option variables of a client program. */
  class Client {
    var options: Config
    const yassl: bool

    constructor (yassl: bool)
      ensures options == Initial && this.yassl == yassl
    {
      options := Initial;
      this.yassl := yassl;
    }

    /** One case of the option switch. */
    method Option(choice: Choice)
      modifies this
      ensures options == Handle(old(options), choice, yassl)
      ensures match choice
              case SslMode(m) => options == old(options).(mode := m, explicit := true)
              case Ssl(on) =>
                options == old(options).(mode := if !on then DISABLED
                                                 else if old(options).mode < REQUIRED then REQUIRED
                                                 else old(options).mode)
              case VerifyServerCert(on) =>
                options == old(options).(mode := if on then VERIFY_IDENTITY
                                                 else if old(options).mode >= VERIFY_IDENTITY then VERIFY_CA
                                                 else old(options).mode)
              case Ca(f) =>
                options == old(options).(ca := Some(f), mode := if old(options).explicit then old(options).mode else VERIFY_CA)
              case CaPath(d) =>
                options == old(options).(caPath := Some(d), mode := if old(options).explicit then old(options).mode else VERIFY_CA)
              case _ =>
                options.mode == old(options).mode && options.explicit == old(options).explicit &&
                options.ca == old(options).ca && options.caPath == old(options).caPath
    {
      match choice {
        case SslMode(m) =>
          options := options.(mode := m);
          options := options.(explicit := true);
        case Ssl(on) =>
          if !on {
            options := options.(mode := DISABLED);
          } else if options.mode < REQUIRED {
            options := options.(mode := REQUIRED);
          }
        case VerifyServerCert(on) =>
          if !on {
            if options.mode >= VERIFY_IDENTITY {
              options := options.(mode := VERIFY_CA);
            }
          } else {
            options := options.(mode := VERIFY_IDENTITY);
          }
        case Ca(f) =>
          options := options.(ca := Some(f));
          if !options.explicit {
            options := options.(mode := VERIFY_CA);
          }
        case CaPath(d) =>
          options := options.(caPath := Some(d));
          if !options.explicit {
            options := options.(mode := VERIFY_CA);
          }
        case _ =>
          options := Stored(options, choice);
          if yassl {
            options := options.(crl := None, crlPath := None);
          }
      }
    }

    method Options(choices: seq<Choice>)
      modifies this
      ensures options == HandleAll(old(options), choices, yassl)
    {
      for i := 0 to |choices|
        invariant options == HandleAll(old(options), choices[..i], yassl)
      {
        assert choices[..i + 1][..i] == choices[..i];
        Option(choices[i]);
      }
      assert choices[..|choices|] == choices;
    }

    /** CA settings are forwarded exactly when the mode verifies the CA; the rest always is. */
    method SetClientSslOptions() returns (s: Settings)
      ensures s.mode == options.mode
      ensures options.mode >= VERIFY_CA ==> s.ca == options.ca && s.caPath == options.caPath
      ensures options.mode < VERIFY_CA ==> s.ca == None && s.caPath == None
      ensures s.key == options.key && s.cert == options.cert && s.cipher == options.cipher
      ensures s.crl == options.crl && s.crlPath == options.crlPath && s.tlsVersion == options.tlsVersion
      ensures s.warned <==> options.explicit && (options.ca, options.caPath) != (s.ca, s.caPath)
    {
      var warned := options.explicit && options.mode < VERIFY_CA && (options.ca != None || options.caPath != None);
      if options.mode >= VERIFY_CA {
        s := Settings(options.key, options.cert, options.ca, options.caPath, options.cipher,
                      options.crl, options.crlPath, options.tlsVersion, options.mode, warned);
      } else {
        s := Settings(options.key, options.cert, None, None, options.cipher,
                      options.crl, options.crlPath, options.tlsVersion, options.mode, warned);
      }
    }

    /** From the command line to the connection: a client started with the options `choices`. */
    method Connect(choices: seq<Choice>) returns (s: Settings)
      requires options == Initial
      modifies this
      ensures s.mode == FinalMode(choices)
      ensures if FinalMode(choices) >= VERIFY_CA then s.ca == LastCa(choices) && s.caPath == LastCaPath(choices)
              else s.ca == None && s.caPath == None
      ensures var c := HandleAll(Initial, choices, yassl);
              s.key == c.key && s.cert == c.cert && s.cipher == c.cipher && s.crl == c.crl && s.crlPath == c.crlPath &&
              s.tlsVersion == c.tlsVersion
      ensures s.warned <==> Explicit(choices) && FinalMode(choices) < VERIFY_CA && CaGiven(choices)
      ensures CaGiven(choices) && s.ca == None && s.caPath == None && !s.warned <==>
              (!Explicit(choices) && exists j :: SwitchedOff(choices, j))
    {
      ModeIsFinalMode(choices, yassl);
      CaGivenIffLast(choices);
      LastCaIsKept(choices, yassl);
      DroppedSilentlyIff(choices);
      Options(choices);
      s := SetClientSslOptions();
    }
  }
}
