/**
 The iPXE scripts served to machines. What matters about a script is whether it
 boots: the caller searches it for a line that says so.
 */
module BootScript {
  import opened Basics

  datatype BootConfig = BootConfig(kernel: string, initrd: seq<string>, cmdline: string)

  /** The parts of a provider manifest the boot chain reads. */
  datatype BootManifest = BootManifest(name: string, pxe: Option<BootConfig>, httpBoot: Option<BootConfig>)

  /** Provider names are lowercase letters, digits and dashes. */
  predicate NameOk(name: string) {
    forall i :: 0 <= i < |name| ==> 'a' <= name[i] <= 'z' || '0' <= name[i] <= '9' || name[i] == '-'
  }

  const BOOT_LINE: string := "\nboot\n"

  predicate At(s: string, sub: string, i: nat) {
    i + |sub| <= |s| && s[i..i + |sub|] == sub
  }

  /** strings.Contains. */
  ghost predicate Contains(s: string, sub: string) {
    exists i: nat :: At(s, sub, i)
  }

  ghost predicate Boots(script: string) { Contains(script, BOOT_LINE) }

  method HasBootLine(s: string) returns (found: bool)
    ensures found <==> Boots(s)
  {
    for i := 0 to |s|
      invariant forall k: nat :: k < i ==> !At(s, BOOT_LINE, k)
    {
      if At(s, BOOT_LINE, i) {
        return true;
      }
    }
    return false;
  }

  function MessageScript(msg: string): string {
    "#!ipxe\necho HELBOOT: " + msg + "\nsleep 5\nexit\n"
  }

  /** The answer to a machine that did not say who it is: come back with a MAC. */
  const RETRY_SCRIPT: string := "#!ipxe\nchain /boot/ipxe?mac=${net0/mac}&arch=${buildarch}&firmware=${platform}\n"

  // ------------------------------------------------------------- messages

  /** No line after the first starts with the letter of `boot`. */
  ghost predicate NoBootLine(s: string) {
    forall i :: 0 <= i < |s| - 1 && s[i] == '\n' ==> s[i + 1] != 'b'
  }

  lemma NoBootLineJoins(a: string, b: string)
    requires NoBootLine(a) && NoBootLine(b) && a != "" && b != ""
    requires a[|a| - 1] != '\n' || b[0] != 'b'
    ensures NoBootLine(a + b)
  {}

  lemma NoBootLineDoesNotBoot(s: string)
    requires NoBootLine(s)
    ensures !Boots(s)
  {
    forall i: nat ensures !At(s, BOOT_LINE, i) {
      if i + 6 <= |s| {
        var w := s[i..i + 6];
        assert w[0] == s[i] && w[1] == s[i + 1];
      }
    }
  }

  /** A one-line message never starts an installer. */
  lemma MessageDoesNotBoot(msg: string)
    requires msg != "" && '\n' !in msg
    ensures !Boots(MessageScript(msg))
  {
    var head, tail := "#!ipxe\necho HELBOOT: ", "\nsleep 5\nexit\n";
    assert NoBootLine(head);
    assert NoBootLine(tail);
    NoBootLineJoins(head, msg);
    NoBootLineJoins(head + msg, tail);
    NoBootLineDoesNotBoot(head + msg + tail);
  }

  const DISCOVERED: string := " discovered -" + " assign a profile in the web UI" + "\nsleep 5\nexit\n"
  const LOCAL_DISK: string := " has no pending" + " installation, booting local disk" + "\nexit\n"

  lemma NothingQueuedDoesNotBoot(mac: string)
    requires '\n' !in mac
    ensures !Boots("#!ipxe\necho HELBOOT: host " + mac + DISCOVERED)
    ensures !Boots("#!ipxe\necho HELBOOT: host " + mac + LOCAL_DISK)
  {
    var head := "#!ipxe\necho HELBOOT: host ";
    assert NoBootLine(head);
    if mac == "" {
      assert head + mac == head;
    } else {
      NoBootLineJoins(head, mac);
    }
    DiscoveredTail();
    LocalDiskTail();
    hide DISCOVERED, LOCAL_DISK;
    NoBootLineJoins(head + mac, DISCOVERED);
    NoBootLineJoins(head + mac, LOCAL_DISK);
    NoBootLineDoesNotBoot(head + mac + DISCOVERED);
    NoBootLineDoesNotBoot(head + mac + LOCAL_DISK);
  }

  lemma DiscoveredTail()
    ensures NoBootLine(DISCOVERED) && DISCOVERED != "" && DISCOVERED[0] == ' '
  {
    var first, second, last := " discovered -", " assign a profile in the web UI", "\nsleep 5\nexit\n";
    assert '\n' !in first && '\n' !in second && NoBootLine(last);
    NoBootLineJoins(first, second);
    NoBootLineJoins(first + second, last);
    assert (first + second + last)[0] == first[0] == ' ';
  }

  lemma LocalDiskTail()
    ensures NoBootLine(LOCAL_DISK) && LOCAL_DISK != "" && LOCAL_DISK[0] == ' '
  {
    var first, second, last := " has no pending", " installation, booting local disk", "\nexit\n";
    assert '\n' !in first && '\n' !in second && NoBootLine(last);
    NoBootLineJoins(first, second);
    NoBootLineJoins(first + second, last);
    assert (first + second + last)[0] == first[0] == ' ';
  }

  lemma UnsupportedDoesNotBoot(name: string)
    requires NameOk(name)
    ensures !Boots(MessageScript("provider " + name + " does not support network boot"))
  {
    var msg := "provider " + name + " does not support network boot";
    MessageDoesNotBoot(msg);
  }

  const TEMPLATE_FAILED: string := "boot configuration error," + " check the HELBOOT logs"

  lemma FailureDoesNotBoot()
    ensures !Boots(MessageScript(TEMPLATE_FAILED))
  {
    var first, second := "boot configuration error,", " check the HELBOOT logs";
    assert '\n' !in first && '\n' !in second;
    MessageDoesNotBoot(first + second);
  }

  predicate EndsLine(b: string) { b != "" && b[|b| - 1] == '\n' }

  lemma NewlineEnds(b: string)
    ensures EndsLine(b + "\n")
  {}

  lemma EndsWithBootLine(b: string)
    requires EndsLine(b)
    ensures Boots(b + "boot\n")
  {
    var s := b + "boot\n";
    assert s[|b| - 1..|b| - 1 + |BOOT_LINE|] == BOOT_LINE;
    assert At(s, BOOT_LINE, |b| - 1);
  }

  // --------------------------------------------------------------- scripts

  function ConfigOf(m: BootManifest): Option<BootConfig> {
    if m.pxe.Some? then m.pxe else m.httpBoot
  }

  function LastEquals(s: string): (i: int)
    ensures -1 <= i < |s|
    ensures i >= 0 ==> s[i] == '='
    ensures forall k :: i < k < |s| ==> s[k] != '='
  {
    if s == "" then -1 else if s[|s| - 1] == '=' then |s| - 1 else LastEquals(s[..|s| - 1])
  }

  /** What a template may refer to besides the config. */
  datatype Params = Params(answerFileURL: string, isoURL: string, isoContentURL: string, cloudInitURL: string,
                           reportURL: string, hostname: string, mac: string)

  /** The decimal digits of a row id. */
  function Decimal(n: nat): string {
    (if n < 10 then "" else Decimal(n / 10)) + ["0123456789"[n % 10]]
  }

  /** What the template of one installation is rendered with. */
  function AnswerParams(baseURL: string, token: string, iso: nat, hostname: string, mac: string): Params {
    Params(baseURL + "/boot/answer/" + token, baseURL + "/boot/isofile/" + Decimal(iso),
           baseURL + "/boot/iso/" + Decimal(iso), baseURL + "/boot/cloudinit/" + token + "/",
           baseURL + "/boot/report/" + token, hostname, mac)
  }

  /** Paths with a slash live in the ISO, bare names among the boot assets. */
  function Resolve(p: string, baseURL: string, iso: nat): string {
    if '/' in p then baseURL + "/boot/iso/" + Decimal(iso) + "/" + (if p[0] == '/' then p[1..] else p)
    else baseURL + "/boot/assets/" + p
  }

  /** One initrd: a path, or "path=name" for a file under another local name. */
  function InitrdLine(initrd: string, baseURL: string, iso: nat): string {
    var i := LastEquals(initrd);
    var src, name := if i >= 0 then initrd[..i] else initrd, if i >= 0 then initrd[i + 1..] else "";
    "initrd " + Resolve(src, baseURL, iso) + (if name == "" then "\n" else " " + name + "\n")
  }

  function InitrdLines(initrds: seq<string>, baseURL: string, iso: nat): string {
    if initrds == [] then ""
    else InitrdLines(initrds[..|initrds| - 1], baseURL, iso) + InitrdLine(initrds[|initrds| - 1], baseURL, iso)
  }

  /** What the two forms of an initrd mean; the last equals sign decides. */
  lemma InitrdForms(src: string, name: string, baseURL: string, iso: nat)
    requires '=' !in name
    ensures '=' !in src ==> InitrdLine(src, baseURL, iso) == "initrd " + Resolve(src, baseURL, iso) + "\n"
    ensures name != "" ==>
      InitrdLine(src + "=" + name, baseURL, iso) == "initrd " + Resolve(src, baseURL, iso) + " " + name + "\n"
  {
    if '=' !in src { assert LastEquals(src) == -1; }
    var both := src + "=" + name;
    assert both[|src|] == '=' && forall k :: |src| < k < |both| ==> both[k] == name[k - |src| - 1];
    assert LastEquals(both) == |src|;
    assert both[..|src|] == src && both[|src| + 1..] == name;
    var head := "initrd " + Resolve(src, baseURL, iso);
    assert head + (" " + name + "\n") == head + " " + name + "\n";
  }

  lemma NoInitrds(head: string, initrds: seq<string>, baseURL: string, iso: nat)
    ensures head + InitrdLines(initrds[..0], baseURL, iso) == head
  {}

  lemma NextInitrd(head: string, initrds: seq<string>, k: nat, baseURL: string, iso: nat)
    requires k < |initrds|
    ensures head + InitrdLines(initrds[..k + 1], baseURL, iso)
         == head + InitrdLines(initrds[..k], baseURL, iso) + InitrdLine(initrds[k], baseURL, iso)
  {
    hide InitrdLine;
    assert initrds[..k + 1][..k] == initrds[..k];
    Associates(head, InitrdLines(initrds[..k], baseURL, iso), InitrdLine(initrds[k], baseURL, iso));
  }

  lemma Associates(a: string, b: string, c: string)
    ensures a + (b + c) == a + b + c
  {}

  lemma OneInitrd(b: string, initrd: string, baseURL: string, iso: nat)
    ensures var i := LastEquals(initrd);
      var src, name := if i >= 0 then initrd[..i] else initrd, if i >= 0 then initrd[i + 1..] else "";
      b + InitrdLine(initrd, baseURL, iso)
        == if name != "" then b + "initrd " + Resolve(src, baseURL, iso) + " " + name + "\n"
           else b + "initrd " + Resolve(src, baseURL, iso) + "\n"
    ensures EndsLine(b + InitrdLine(initrd, baseURL, iso))
  {
    hide Resolve;
    var i := LastEquals(initrd);
    var src, name := if i >= 0 then initrd[..i] else initrd, if i >= 0 then initrd[i + 1..] else "";
    var url := Resolve(src, baseURL, iso);
    Joined(b, "initrd ", url, "\n");
    Joined(b, "initrd ", url, " " + name + "\n");
    Joined(b + "initrd " + url, " ", name, "\n");
    NewlineEnds(b + "initrd " + url);
    NewlineEnds(b + "initrd " + url + " " + name);
  }

  lemma Joined(a: string, b: string, c: string, d: string)
    ensures a + (b + c + d) == a + b + c + d
  {}

  /**
   The script that boots an installation. `render` runs the command line through
   the template engine and trims it. The result boots exactly when the provider
   supports network boot and the template renders.
   */
  method InstallScript(m: BootManifest, render: string -> Option<string>, profile: string, mac: string,
                       baseURL: string, iso: nat) returns (script: string)
    requires NameOk(m.name)
    ensures Boots(script) <==> ConfigOf(m).Some? && render(ConfigOf(m).value.cmdline).Some?
    // Network boot settings go before those for HTTP boot; every initrd follows, in order.
    ensures var cfg := if m.pxe.Some? then m.pxe else m.httpBoot;
      cfg.Some? && render(cfg.value.cmdline).Some? ==>
        script == "#!ipxe\n" + "echo HELBOOT: installing " + profile + " on " + mac + "\n"
          + "kernel " + Resolve(cfg.value.kernel, baseURL, iso) + " " + render(cfg.value.cmdline).value + "\n"
          + InitrdLines(cfg.value.initrd, baseURL, iso) + "boot\n"
  {
    hide Boots, MessageScript, Resolve, InitrdLine, InitrdLines, NameOk, EndsLine;
    var bootCfg := m.pxe;
    if bootCfg == None {
      bootCfg := m.httpBoot;
    }
    if bootCfg == None {
      UnsupportedDoesNotBoot(m.name);
      return MessageScript("provider " + m.name + " does not support network boot");
    }
    var cmdline := render(bootCfg.value.cmdline);
    if cmdline == None {
      FailureDoesNotBoot();
      return MessageScript(TEMPLATE_FAILED);
    }
    var b := "#!ipxe\n";
    b := b + "echo HELBOOT: installing " + profile + " on " + mac + "\n";
    b := b + "kernel " + Resolve(bootCfg.value.kernel, baseURL, iso) + " " + cmdline.value + "\n";
    NewlineEnds("#!ipxe\n" + "echo HELBOOT: installing " + profile + " on " + mac + "\n"
      + "kernel " + Resolve(bootCfg.value.kernel, baseURL, iso) + " " + cmdline.value);
    ghost var head := b;
    NoInitrds(head, bootCfg.value.initrd, baseURL, iso);
    for k := 0 to |bootCfg.value.initrd|
      invariant b == head + InitrdLines(bootCfg.value.initrd[..k], baseURL, iso)
      invariant EndsLine(b)
    {
      var initrd := bootCfg.value.initrd[k];
      var src, name := initrd, "";
      var i := LastEquals(initrd);
      if i >= 0 {
        src, name := initrd[..i], initrd[i + 1..];
      }
      OneInitrd(b, initrd, baseURL, iso);
      NextInitrd(head, bootCfg.value.initrd, k, baseURL, iso);
      if name != "" {
        b := b + "initrd " + Resolve(src, baseURL, iso) + " " + name + "\n";
      } else {
        b := b + "initrd " + Resolve(src, baseURL, iso) + "\n";
      }
    }
    assert bootCfg.value.initrd[..|bootCfg.value.initrd|] == bootCfg.value.initrd;
    EndsWithBootLine(b);
    return b + "boot\n";
  }
}
