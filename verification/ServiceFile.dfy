/**
 * The rewriting of a service definition before deployment, whose result is saved
 * back over its own input.
 */
module ServiceFile {
  import opened Prelude
  import opened Pattern

  /** `/mnt/[A-Za-z0-9_-]+/[A-Za-z0-9._-]+` */
  const PATH: Pat := [
    One(Is('/')), One(Is('m')), One(Is('n')), One(Is('t')), One(Is('/')),
    One(TypeChar), Many(TypeChar), One(Is('/')), One(NameChar), Many(NameChar)]

  /** `node\.role\s*==\s*worker` */
  const ROLE: Pat := [
    One(Is('n')), One(Is('o')), One(Is('d')), One(Is('e')), One(Is('.')),
    One(Is('r')), One(Is('o')), One(Is('l')), One(Is('e')), Many(Space),
    One(Is('=')), One(Is('=')), Many(Space),
    One(Is('w')), One(Is('o')), One(Is('r')), One(Is('k')), One(Is('e')), One(Is('r'))]

  const MANAGER_ROLE := "node.role==manager"

  const VARIABLE_TEXT := "${STORAGE_MOUNT_PATH}"

  const VARIABLE: Pat := Literal(VARIABLE_TEXT)

  /** A path the pattern accepts as a whole. */
  predicate IsMountPath(m: string) { Match(PATH, m) == Some(|m|) }

  function ReplaceStoragePaths(content: string, mount: string): string {
    Rewrite(PATH, mount, Rewrite(VARIABLE, mount, content))
  }

  function AdjustPlacement(content: string, hasWorkers: bool): string {
    if hasWorkers then content else Rewrite(ROLE, MANAGER_ROLE, content)
  }

  /** Both rewritings, as deployment applies them; an empty mount path skips the first. */
  function Process(content: string, mount: string, hasWorkers: bool): string {
    AdjustPlacement(PathsReplaced(content, mount), hasWorkers)
  }

  function PathsReplaced(content: string, mount: string): string {
    if mount == "" then content else ReplaceStoragePaths(content, mount)
  }

  /** One of the two rewritings finds something to do. */
  predicate Changes(content: string, mount: string, hasWorkers: bool) {
    var replaced := PathsReplaced(content, mount);
    replaced != content || (!hasWorkers && !NoMatch(ROLE, replaced))
  }

  /** The service file on disk. */
  class ServiceFile {
    var content: string

    constructor (content: string)
      ensures this.content == content
    {
      this.content := content;
    }

    /** Rewrites the content and saves it back when something changed; the write may fail. */
    method Prepare(mount: string, hasWorkers: bool, writeOk: bool) returns (processed: string, modified: bool)
      modifies this
      ensures processed == Process(old(content), mount, hasWorkers)
      ensures !modified ==> processed == old(content)
      ensures modified <==> Changes(old(content), mount, hasWorkers)
      ensures content == if writeOk then processed else old(content)
    {
      processed, modified := content, false;
      if mount != "" {
        var newContent := ReplaceStoragePaths(processed, mount);
        if newContent != processed {
          processed, modified := newContent, true;
        }
      }
      if !hasWorkers && !NoMatch(ROLE, processed) {
        processed, modified := Rewrite(ROLE, MANAGER_ROLE, processed), true;
      } else if !hasWorkers {
        NoMatchIsNone(ROLE, processed);
        RewriteFixes(ROLE, MANAGER_ROLE, processed);
      }
      if modified && writeOk {
        content := processed;
      }
    }
  }

  // ---------------------------------------------------------------- the patterns

  lemma PatternsAreDeterministic()
    ensures Deterministic(PATH) && Deterministic(ROLE) && Deterministic(VARIABLE)
  {
    forall i | 0 <= i < |PATH| && PATH[i].Many? && i + 1 < |PATH| ensures DeterministicAt(PATH, i) {
      PathDeterministicAt(i);
    }
    forall i | 0 <= i < |ROLE| && ROLE[i].Many? && i + 1 < |ROLE| ensures DeterministicAt(ROLE, i) {
      RoleDeterministicAt(i);
    }
  }

  ghost predicate DeterministicAt(p: Pat, i: nat)
    requires i + 1 < |p| && p[i].Many?
  {
    p[i + 1].One? && Disjoint(p[i].cls, p[i + 1].cls)
  }

  lemma PathDeterministicAt(i: nat)
    requires i + 1 < |PATH| && PATH[i].Many?
    ensures DeterministicAt(PATH, i)
  {
    assert i == 6;
  }

  lemma RoleDeterministicAt(i: nat)
    requires i + 1 < |ROLE| && ROLE[i].Many?
    ensures DeterministicAt(ROLE, i)
  {
    assert i == 9 || i == 12;
  }

  /** The mount path pattern, said directly. */
  lemma PathLanguage(s: string, a: string, b: string)
    requires s == "/mnt/" + a + "/" + b && a != "" && b != ""
    requires forall c :: c in a ==> In(TypeChar, c)
    requires forall c :: c in b ==> In(NameChar, c)
    ensures IsMountPath(s)
  {
    var t := a + "/" + b;
    assert s == "/mnt/" + t && s[5..] == t;
    assert t[0] == a[0] && a[0] in a;
    assert t[1..] == a[1..] + "/" + b;
    TypeRun(a[1..], b);
    LiteralStep(PATH, 0, "/mnt/", s);
    assert MatchFrom(PATH, 5, t) == Plus1(MatchFrom(PATH, 6, t[1..]));
  }

  lemma {:induction false} TypeRun(a: string, b: string)
    requires b != ""
    requires forall c :: c in a ==> In(TypeChar, c)
    requires forall c :: c in b ==> In(NameChar, c)
    ensures MatchFrom(PATH, 6, a + "/" + b) == Some(|a| + 1 + |b|)
    decreases |a|
  {
    var s := a + "/" + b;
    if a == "" {
      assert s[0] == '/' && s[1..] == b;
      assert b[0] in b;
      NameRun(b[1..]);
      assert MatchFrom(PATH, 8, b) == Plus1(MatchFrom(PATH, 9, b[1..]));
      assert MatchFrom(PATH, 7, s) == Plus1(MatchFrom(PATH, 8, b));
    } else {
      assert s[0] == a[0] && a[0] in a && s[1..] == a[1..] + "/" + b;
      TypeRun(a[1..], b);
    }
  }

  lemma {:induction false} NameRun(b: string)
    requires forall c :: c in b ==> In(NameChar, c)
    ensures MatchFrom(PATH, 9, b) == Some(|b|)
  {
    if b != "" {
      assert b[0] in b;
      NameRun(b[1..]);
    }
  }
}
