/**
 * Ingress resolution of the ketch `chart` package: `newIngress(app, framework)`
 * splits an application's custom domains ("cnames") into plain HTTP hosts and
 * TLS endpoints, names the certificate secret and the ingress rule of every
 * TLS endpoint, and fails when a secure cname needs an automated certificate
 * but the framework configures no cluster issuer.
 */
module Chart {

  /** One custom domain of an application; `secretName == ""` means none given. */
  datatype Cname = Cname(name: string, secure: bool, secretName: string)

  /** The parts of an application that the package's test sets: its name and its cnames. */
  datatype App = App(name: string, cnames: seq<Cname>)

  /** The part of a framework that the package's test sets; `""` means no issuer. */
  datatype Framework = Framework(clusterIssuer: string)

  /** Who owns the TLS certificate of an endpoint. */
  datatype ManagedBy = CertManager | User

  datatype HttpsEndpoint = HttpsEndpoint(cname: string, secretName: string, uniqueName: string, managedBy: ManagedBy)

  datatype Ingress = Ingress(http: seq<string>, https: seq<HttpsEndpoint>)

  /** A value or the text of the error that replaced it. */
  datatype Result<T> = Ok(value: T) | Err(message: string)

  const MissingClusterIssuer: string := "secure cnames require a framework.Ingress.ClusterIssuer to be specified"

  // ---------------------------------------------------------------------------
  // Naming
  // ---------------------------------------------------------------------------

  /** Turns a domain into a resource-name segment: every '.' becomes '-'. */
  function Sanitize(s: string): (r: string)
    ensures |r| == |s|
    ensures forall i :: 0 <= i < |s| ==> r[i] == (if s[i] == '.' then '-' else s[i])
    ensures '.' !in r
    ensures r == s <==> '.' !in s
  {
    if s == [] then [] else [if s[0] == '.' then '-' else s[0]] + Sanitize(s[1..])
  }

  /** Name of the secret that cert-manager fills for a secure cname. */
  function CnameSecretName(appName: string, domain: string): string {
    appName + "-cname-" + Sanitize(domain)
  }

  /** Name of the ingress rule of a secure cname. */
  function HttpsUniqueName(appName: string, domain: string): string {
    appName + "-https-" + Sanitize(domain)
  }

  lemma SanitizeExample()
    ensures Sanitize("b.name") == "b-name"
    ensures Sanitize("c.name") == "c-name"
  {
    DomainLiterals();
    SanitizeOneDot("b", "name");
    SanitizeOneDot("c", "name");
  }

  lemma DomainLiterals()
    ensures "b" + "." + "name" == "b.name" && "b" + "-" + "name" == "b-name"
    ensures "c" + "." + "name" == "c.name" && "c" + "-" + "name" == "c-name"
  {
  }

  /** The names the package's test expects for the application "my-app". */
  lemma NamingExample()
    ensures CnameSecretName("my-app", "b.name") == "my-app-cname-b-name"
    ensures HttpsUniqueName("my-app", "b.name") == "my-app-https-b-name"
    ensures HttpsUniqueName("my-app", "c.name") == "my-app-https-c-name"
  {
    SanitizeExample();
    ExpectedNameLiterals();
  }

  lemma ExpectedNameLiterals()
    ensures "my-app" + "-cname-" + "b-name" == "my-app-cname-b-name"
    ensures "my-app" + "-https-" + "b-name" == "my-app-https-b-name"
    ensures "my-app" + "-https-" + "c-name" == "my-app-https-c-name"
  {
  }

  /** Sanitizing works character by character, so it distributes over concatenation. */
  lemma {:induction false} SanitizeAppend(a: string, b: string)
    ensures Sanitize(a + b) == Sanitize(a) + Sanitize(b)
  {
    if a == [] {
      assert a + b == b;
    } else {
      var head := [if a[0] == '.' then '-' else a[0]];
      assert (a + b)[0] == a[0];
      assert (a + b)[1..] == a[1..] + b;
      SanitizeAppend(a[1..], b);
      assert Sanitize(a + b) == head + (Sanitize(a[1..]) + Sanitize(b));
      assert head + (Sanitize(a[1..]) + Sanitize(b)) == (head + Sanitize(a[1..])) + Sanitize(b);
    }
  }

  /** A domain with a single '.' between two dot-free labels. */
  lemma SanitizeOneDot(first: string, rest: string)
    requires '.' !in first && '.' !in rest
    ensures Sanitize(first + "." + rest) == first + "-" + rest
  {
    SanitizeAppend(first + ".", rest);
    SanitizeAppend(first, ".");
    assert Sanitize(".") == "-";
  }

  /** What follows a fixed prefix determines the whole sequence and back. */
  lemma PrefixCancel(p: string, x: string, y: string)
    ensures p + x == p + y <==> x == y
  {
    if p + x == p + y {
      assert x == (p + x)[|p|..];
      assert y == (p + y)[|p|..];
    }
  }

  /** Two domains get the same rule name exactly when their sanitized forms agree. */
  lemma HttpsUniqueNameInjective(appName: string, d1: string, d2: string)
    ensures HttpsUniqueName(appName, d1) == HttpsUniqueName(appName, d2) <==> Sanitize(d1) == Sanitize(d2)
  {
    PrefixCancel(appName + "-https-", Sanitize(d1), Sanitize(d2));
  }

  /** The same holds of the secrets that cert-manager fills. */
  lemma CnameSecretNameInjective(appName: string, d1: string, d2: string)
    ensures CnameSecretName(appName, d1) == CnameSecretName(appName, d2) <==> Sanitize(d1) == Sanitize(d2)
  {
    PrefixCancel(appName + "-cname-", Sanitize(d1), Sanitize(d2));
  }

  /** Distinct domains can still collide: "a.b" and "a-b" share a rule name. */
  lemma SanitizeCollision()
    ensures "a.b" != "a-b"
    ensures HttpsUniqueName("my-app", "a.b") == HttpsUniqueName("my-app", "a-b")
  {
    assert "a.b"[1] != "a-b"[1];
    assert Sanitize("a.b") == "a-b";
    assert Sanitize("a-b") == "a-b";
  }

  /** A secret that cert-manager fills never carries the name of an ingress rule. */
  lemma SecretNameIsNotRuleName(appName: string, d1: string, d2: string)
    ensures CnameSecretName(appName, d1) != HttpsUniqueName(appName, d2)
  {
    assert CnameSecretName(appName, d1)[|appName| + 1] == 'c';
    assert HttpsUniqueName(appName, d2)[|appName| + 1] == 'h';
  }

  // ---------------------------------------------------------------------------
  // Resolution
  // ---------------------------------------------------------------------------

  /** A secure cname without a secret of its own needs the cluster issuer. */
  predicate NeedsIssuer(c: Cname) {
    c.secure && c.secretName == ""
  }

  /** The endpoint of a secure cname, granted that it may be resolved. */
  function EndpointFor(appName: string, c: Cname): HttpsEndpoint {
    if c.secretName != "" then
      HttpsEndpoint(c.name, c.secretName, HttpsUniqueName(appName, c.name), User)
    else
      HttpsEndpoint(c.name, CnameSecretName(appName, c.name), HttpsUniqueName(appName, c.name), CertManager)
  }

  /**
   * The cnames resolved one after another, in order: the first secure cname
   * that needs an issuer while there is none ends the whole call with the error.
   */
  function Resolve(appName: string, clusterIssuer: string, cnames: seq<Cname>): (r: Result<Ingress>)
    ensures r.Err? ==> r.message == MissingClusterIssuer
    ensures r.Ok? ==> |r.value.http| + |r.value.https| == |cnames|
  {
    if cnames == [] then Ok(Ingress([], []))
    else
      var c := cnames[0];
      if NeedsIssuer(c) && clusterIssuer == "" then Err(MissingClusterIssuer)
      else
        match Resolve(appName, clusterIssuer, cnames[1..])
        case Err(e) => Err(e)
        case Ok(rest) =>
          if c.secure then Ok(Ingress(rest.http, [EndpointFor(appName, c)] + rest.https))
          else Ok(Ingress([c.name] + rest.http, rest.https))
  }

  // ---------------------------------------------------------------------------
  // Reference definition: partition first, then map
  // ---------------------------------------------------------------------------

  /** The non-secure cnames, in input order. */
  function Insecure(cs: seq<Cname>): (r: seq<Cname>)
    ensures forall c :: c in r ==> c in cs && !c.secure
    ensures forall i :: 0 <= i < |cs| && !cs[i].secure ==> cs[i] in r
  {
    if cs == [] then [] else (if cs[0].secure then [] else [cs[0]]) + Insecure(cs[1..])
  }

  /** The secure cnames, in input order. */
  function Secure(cs: seq<Cname>): (r: seq<Cname>)
    ensures forall c :: c in r ==> c in cs && c.secure
    ensures forall i :: 0 <= i < |cs| && cs[i].secure ==> cs[i] in r
  {
    if cs == [] then [] else (if cs[0].secure then [cs[0]] else []) + Secure(cs[1..])
  }

  /** The domain names of the cnames, in order. */
  function Names(cs: seq<Cname>): seq<string> {
    seq(|cs|, k requires 0 <= k < |cs| => cs[k].name)
  }

  /** The endpoints of the cnames, in order. */
  function Endpoints(appName: string, cs: seq<Cname>): seq<HttpsEndpoint> {
    seq(|cs|, k requires 0 <= k < |cs| => EndpointFor(appName, cs[k]))
  }

  /** Some cname of the list needs the cluster issuer. */
  predicate AnyNeedsIssuer(cs: seq<Cname>) {
    exists i :: 0 <= i < |cs| && NeedsIssuer(cs[i])
  }

  /** Every cname lands in exactly one of the two lists. */
  lemma {:induction false} PartitionComplete(cs: seq<Cname>)
    ensures |Insecure(cs)| + |Secure(cs)| == |cs|
    ensures multiset(Insecure(cs)) + multiset(Secure(cs)) == multiset(cs)
  {
    if cs != [] {
      PartitionComplete(cs[1..]);
      assert cs == [cs[0]] + cs[1..];
    }
  }

  lemma AnyNeedsIssuerCons(cs: seq<Cname>)
    requires cs != []
    ensures AnyNeedsIssuer(cs) <==> NeedsIssuer(cs[0]) || AnyNeedsIssuer(cs[1..])
  {
    if AnyNeedsIssuer(cs[1..]) {
      var j :| 0 <= j < |cs[1..]| && NeedsIssuer(cs[1..][j]);
      assert NeedsIssuer(cs[j + 1]);
    }
    if AnyNeedsIssuer(cs) && !NeedsIssuer(cs[0]) {
      var i :| 0 <= i < |cs| && NeedsIssuer(cs[i]);
      assert i != 0;
      assert NeedsIssuer(cs[1..][i - 1]);
    }
  }

  /**
   * Fail-fast resolution agrees with "check every cname, then partition":
   * it fails exactly when the issuer is missing and some cname needs it,
   * and otherwise yields the names of the non-secure cnames and the
   * endpoints of the secure ones, each list in input order.
   */
  lemma {:induction false} ResolveIsPartition(appName: string, clusterIssuer: string, cs: seq<Cname>)
    ensures Resolve(appName, clusterIssuer, cs)
         == if clusterIssuer == "" && AnyNeedsIssuer(cs) then Err(MissingClusterIssuer)
            else Ok(Ingress(Names(Insecure(cs)), Endpoints(appName, Secure(cs))))
  {
    if cs == [] {
      assert Names(Insecure(cs)) == [];
      assert Endpoints(appName, Secure(cs)) == [];
    } else {
      var c, rest := cs[0], cs[1..];
      AnyNeedsIssuerCons(cs);
      ResolveIsPartition(appName, clusterIssuer, rest);
      if NeedsIssuer(c) && clusterIssuer == "" {
      } else if clusterIssuer == "" && AnyNeedsIssuer(rest) {
      } else if c.secure {
        assert Insecure(cs) == Insecure(rest);
        assert Secure(cs) == [c] + Secure(rest);
        EndpointsCons(appName, c, Secure(rest));
      } else {
        assert Secure(cs) == Secure(rest);
        assert Insecure(cs) == [c] + Insecure(rest);
        NamesCons(c, Insecure(rest));
      }
    }
  }

  lemma NamesCons(c: Cname, cs: seq<Cname>)
    ensures Names([c] + cs) == [c.name] + Names(cs)
  {
  }

  lemma EndpointsCons(appName: string, c: Cname, cs: seq<Cname>)
    ensures Endpoints(appName, [c] + cs) == [EndpointFor(appName, c)] + Endpoints(appName, cs)
  {
  }

  /** `newIngress(app, framework)`. */
  function NewIngress(app: App, framework: Framework): (r: Result<Ingress>)
    ensures r.Err? <==> framework.clusterIssuer == "" && AnyNeedsIssuer(app.cnames)
    ensures r.Err? ==> r.message == MissingClusterIssuer
    ensures r.Ok? ==> r.value.http == Names(Insecure(app.cnames))
    ensures r.Ok? ==> r.value.https == Endpoints(app.name, Secure(app.cnames))
  {
    ResolveIsPartition(app.name, framework.clusterIssuer, app.cnames);
    Resolve(app.name, framework.clusterIssuer, app.cnames)
  }

  // ---------------------------------------------------------------------------
  // Properties of the result
  // ---------------------------------------------------------------------------

  /** The failure for a concatenation comes from either part; otherwise the lists concatenate. */
  function Concat(x: Result<Ingress>, y: Result<Ingress>): Result<Ingress> {
    if x.Err? then x
    else if y.Err? then y
    else Ok(Ingress(x.value.http + y.value.http, x.value.https + y.value.https))
  }

  /**
   * Resolution works cname by cname, left to right: resolving `a + b` is
   * resolving `a`, then `b`, and joining the lists; an error in `a` wins.
   */
  lemma {:induction false} ResolveAppend(appName: string, clusterIssuer: string, a: seq<Cname>, b: seq<Cname>)
    ensures Resolve(appName, clusterIssuer, a + b)
         == Concat(Resolve(appName, clusterIssuer, a), Resolve(appName, clusterIssuer, b))
  {
    if a == [] {
      assert a + b == b;
      var y := Resolve(appName, clusterIssuer, b);
      if y.Ok? {
        assert [] + y.value.http == y.value.http;
        assert [] + y.value.https == y.value.https;
      }
    } else {
      var c := a[0];
      assert (a + b)[0] == c;
      assert (a + b)[1..] == a[1..] + b;
      ResolveAppend(appName, clusterIssuer, a[1..], b);
      var ra := Resolve(appName, clusterIssuer, a[1..]);
      var rb := Resolve(appName, clusterIssuer, b);
      if !(NeedsIssuer(c) && clusterIssuer == "") && ra.Ok? && rb.Ok? {
        if c.secure {
          assert [EndpointFor(appName, c)] + (ra.value.https + rb.value.https)
              == ([EndpointFor(appName, c)] + ra.value.https) + rb.value.https;
        } else {
          assert [c.name] + (ra.value.http + rb.value.http) == ([c.name] + ra.value.http) + rb.value.http;
        }
      }
    }
  }

  /** A single cname: a plain host, an endpoint, or the error. */
  lemma ResolveOne(appName: string, clusterIssuer: string, c: Cname)
    ensures Resolve(appName, clusterIssuer, [c])
         == if !c.secure then Ok(Ingress([c.name], []))
            else if c.secretName == "" && clusterIssuer == "" then Err(MissingClusterIssuer)
            else Ok(Ingress([], [EndpointFor(appName, c)]))
  {
    assert [c][1..] == [];
    assert [c.name] + [] == [c.name];
    assert [EndpointFor(appName, c)] + [] == [EndpointFor(appName, c)];
  }

  /**
   * Every endpoint belongs to the secure cname at the same position among the
   * secure cnames: its rule name is `<app>-https-<domain>`, and its secret is
   * the user's when one is given (managed by the user) and otherwise
   * `<app>-cname-<domain>` (managed by cert-manager).
   */
  lemma HttpsEndpointFields(app: App, framework: Framework, k: nat)
    requires NewIngress(app, framework).Ok?
    requires k < |Secure(app.cnames)|
    ensures var e := NewIngress(app, framework).value.https[k];
            var c := Secure(app.cnames)[k];
            && c.secure
            && e.cname == c.name
            && e.uniqueName == app.name + "-https-" + Sanitize(c.name)
            && (c.secretName != "" ==> e.secretName == c.secretName && e.managedBy == User)
            && (c.secretName == "" ==> e.secretName == app.name + "-cname-" + Sanitize(c.name) && e.managedBy == CertManager)
  {
    assert Secure(app.cnames)[k] in Secure(app.cnames);
  }

  /** The k-th plain host is the name of the k-th non-secure cname, unchanged. */
  lemma HttpHostFields(app: App, framework: Framework, k: nat)
    requires NewIngress(app, framework).Ok?
    requires k < |Insecure(app.cnames)|
    ensures NewIngress(app, framework).value.http[k] == Insecure(app.cnames)[k].name
    ensures !Insecure(app.cnames)[k].secure
  {
    assert Insecure(app.cnames)[k] in Insecure(app.cnames);
  }

  /**
   * On success every cname is routed exactly once: a non-secure one by its
   * name in `http`, a secure one by its endpoint in `https`.
   */
  lemma EveryCnameRouted(app: App, framework: Framework)
    requires NewIngress(app, framework).Ok?
    ensures var ing := NewIngress(app, framework).value;
            && |ing.http| + |ing.https| == |app.cnames|
            && (forall i :: 0 <= i < |app.cnames| && !app.cnames[i].secure ==> app.cnames[i].name in ing.http)
            && (forall i :: 0 <= i < |app.cnames| && app.cnames[i].secure ==> EndpointFor(app.name, app.cnames[i]) in ing.https)
  {
    PartitionComplete(app.cnames);
    NamesOfInsecure(app.cnames);
    EndpointsOfSecure(app.name, app.cnames);
  }

  lemma NamesOfInsecure(cs: seq<Cname>)
    ensures forall i :: 0 <= i < |cs| && !cs[i].secure ==> cs[i].name in Names(Insecure(cs))
  {
    forall i | 0 <= i < |cs| && !cs[i].secure
      ensures cs[i].name in Names(Insecure(cs))
    {
      var k :| 0 <= k < |Insecure(cs)| && Insecure(cs)[k] == cs[i];
      assert Names(Insecure(cs))[k] == cs[i].name;
    }
  }

  lemma EndpointsOfSecure(appName: string, cs: seq<Cname>)
    ensures forall i :: 0 <= i < |cs| && cs[i].secure ==> EndpointFor(appName, cs[i]) in Endpoints(appName, Secure(cs))
  {
    forall i | 0 <= i < |cs| && cs[i].secure
      ensures EndpointFor(appName, cs[i]) in Endpoints(appName, Secure(cs))
    {
      var k :| 0 <= k < |Secure(cs)| && Secure(cs)[k] == cs[i];
      assert Endpoints(appName, Secure(cs))[k] == EndpointFor(appName, cs[i]);
    }
  }

  /** Without secure cnames the issuer is irrelevant: every name goes to `http`. */
  lemma NoSecureCnames(app: App, framework: Framework)
    requires forall i :: 0 <= i < |app.cnames| ==> !app.cnames[i].secure
    ensures NewIngress(app, framework) == Ok(Ingress(Names(app.cnames), []))
  {
    InsecureOfAllInsecure(app.cnames);
    SecureOfAllInsecure(app.cnames);
  }

  lemma {:induction false} InsecureOfAllInsecure(cs: seq<Cname>)
    requires forall i :: 0 <= i < |cs| ==> !cs[i].secure
    ensures Insecure(cs) == cs
  {
    if cs != [] {
      InsecureOfAllInsecure(cs[1..]);
      assert cs == [cs[0]] + cs[1..];
    }
  }

  lemma {:induction false} SecureOfAllInsecure(cs: seq<Cname>)
    requires forall i :: 0 <= i < |cs| ==> !cs[i].secure
    ensures Secure(cs) == []
  {
    if cs != [] {
      SecureOfAllInsecure(cs[1..]);
    }
  }

  /**
   * When every secure cname brings its own secret, the cluster issuer does
   * not matter: the user's secrets take precedence whether or not one is set.
   */
  lemma {:induction false} UserSecretsIgnoreIssuer(appName: string, issuer1: string, issuer2: string, cs: seq<Cname>)
    requires forall i :: 0 <= i < |cs| && cs[i].secure ==> cs[i].secretName != ""
    ensures Resolve(appName, issuer1, cs) == Resolve(appName, issuer2, cs)
    ensures Resolve(appName, issuer1, cs).Ok?
  {
    if cs != [] {
      UserSecretsIgnoreIssuer(appName, issuer1, issuer2, cs[1..]);
    }
  }

  /**
   * The rule names of a successful result are pairwise distinct as long as the
   * secure domains are pairwise distinct once sanitized.
   */
  lemma UniqueNamesDistinct(app: App, framework: Framework)
    requires NewIngress(app, framework).Ok?
    requires forall i, j :: 0 <= i < j < |Secure(app.cnames)|
               ==> Sanitize(Secure(app.cnames)[i].name) != Sanitize(Secure(app.cnames)[j].name)
    ensures var https := NewIngress(app, framework).value.https;
            forall i, j :: 0 <= i < j < |https| ==> https[i].uniqueName != https[j].uniqueName
  {
    var s := Secure(app.cnames);
    var https := NewIngress(app, framework).value.https;
    forall i, j | 0 <= i < j < |https|
      ensures https[i].uniqueName != https[j].uniqueName
    {
      HttpsUniqueNameInjective(app.name, s[i].name, s[j].name);
    }
  }

  /**
   * Likewise, two endpoints whose secrets cert-manager fills never share a
   * secret name as long as the sanitized secure domains are pairwise distinct.
   */
  lemma CertManagerSecretsDistinct(app: App, framework: Framework)
    requires NewIngress(app, framework).Ok?
    requires forall i, j :: 0 <= i < j < |Secure(app.cnames)|
               ==> Sanitize(Secure(app.cnames)[i].name) != Sanitize(Secure(app.cnames)[j].name)
    ensures var https := NewIngress(app, framework).value.https;
            forall i, j :: 0 <= i < j < |https| && https[i].managedBy == CertManager && https[j].managedBy == CertManager
              ==> https[i].secretName != https[j].secretName
  {
    var s := Secure(app.cnames);
    var https := NewIngress(app, framework).value.https;
    forall i, j | 0 <= i < j < |https| && https[i].managedBy == CertManager && https[j].managedBy == CertManager
      ensures https[i].secretName != https[j].secretName
    {
      CnameSecretNameInjective(app.name, s[i].name, s[j].name);
    }
  }

  /**
   * A secret the user names is taken as is, so it can coincide with one that
   * cert-manager fills for another domain of the same application.
   */
  lemma UserSecretCollision()
    ensures var r := NewIngress(App("my-app", [Cname("b.name", true, ""), Cname("x", true, "my-app-cname-b-name")]),
                                Framework("test-cluster-issuer"));
            && r.Ok? && |r.value.https| == 2
            && r.value.https[0].managedBy == CertManager && r.value.https[1].managedBy == User
            && r.value.https[0].secretName == r.value.https[1].secretName
  {
    var y, z := Cname("b.name", true, ""), Cname("x", true, "my-app-cname-b-name");
    NamingExample();
    TwoSecure("my-app", "test-cluster-issuer", y, z);
  }

  /** Two secure cnames, with an issuer set, give their two endpoints in order. */
  lemma TwoSecure(appName: string, clusterIssuer: string, y: Cname, z: Cname)
    requires y.secure && z.secure && clusterIssuer != ""
    ensures Resolve(appName, clusterIssuer, [y, z])
         == Ok(Ingress([], [EndpointFor(appName, y), EndpointFor(appName, z)]))
  {
    assert [y, z] == [y] + [z];
    ResolveAppend(appName, clusterIssuer, [y], [z]);
    ResolveOne(appName, clusterIssuer, y);
    ResolveOne(appName, clusterIssuer, z);
    var none: seq<string> := [];
    assert none + none == none;
    assert [EndpointFor(appName, y)] + [EndpointFor(appName, z)] == [EndpointFor(appName, y), EndpointFor(appName, z)];
  }

  // ---------------------------------------------------------------------------
  // The table of the package's test
  // ---------------------------------------------------------------------------

  lemma HappyCase()
    ensures NewIngress(App("my-app", [Cname("a.name", false, ""), Cname("b.name", true, ""), Cname("c.name", true, "c-ssl")]),
                       Framework("test-cluster-issuer"))
         == Ok(Ingress(["a.name"],
                       [HttpsEndpoint("b.name", "my-app-cname-b-name", "my-app-https-b-name", CertManager),
                        HttpsEndpoint("c.name", "c-ssl", "my-app-https-c-name", User)]))
  {
    NamingExample();
    PlainThenTwoSecure("my-app", "test-cluster-issuer",
                       Cname("a.name", false, ""), Cname("b.name", true, ""), Cname("c.name", true, "c-ssl"));
  }

  /** The shape of the first test case, for any names. */
  lemma PlainThenTwoSecure(appName: string, clusterIssuer: string, x: Cname, y: Cname, z: Cname)
    requires !x.secure && y.secure && z.secure && clusterIssuer != ""
    ensures Resolve(appName, clusterIssuer, [x, y, z])
         == Ok(Ingress([x.name], [EndpointFor(appName, y), EndpointFor(appName, z)]))
  {
    assert [x, y, z] == [x] + ([y] + [z]);
    ResolveAppend(appName, clusterIssuer, [x], [y] + [z]);
    ResolveAppend(appName, clusterIssuer, [y], [z]);
    ResolveOne(appName, clusterIssuer, x);
    ResolveOne(appName, clusterIssuer, y);
    ResolveOne(appName, clusterIssuer, z);
    assert [] + [EndpointFor(appName, z)] == [EndpointFor(appName, z)];
    assert [EndpointFor(appName, y)] + [EndpointFor(appName, z)] == [EndpointFor(appName, y), EndpointFor(appName, z)];
    assert [x.name] + ([] + []) == [x.name];
    assert [] + [EndpointFor(appName, y), EndpointFor(appName, z)] == [EndpointFor(appName, y), EndpointFor(appName, z)];
  }

  lemma NoHttpsNoIssuerCase()
    ensures NewIngress(App("my-app", [Cname("a.name", false, ""), Cname("b.name", false, "")]), Framework(""))
         == Ok(Ingress(["a.name", "b.name"], []))
  {
    var cs := [Cname("a.name", false, ""), Cname("b.name", false, "")];
    NoSecureCnames(App("my-app", cs), Framework(""));
    assert Names(cs) == [cs[0].name, cs[1].name];
  }

  lemma NoIssuerCase()
    ensures NewIngress(App("my-app", [Cname("a.name", true, "")]), Framework(""))
         == Err("secure cnames require a framework.Ingress.ClusterIssuer to be specified")
  {
  }

  // ---------------------------------------------------------------------------
  // The same resolution as a loop that appends to two lists
  // ---------------------------------------------------------------------------

  /** One more cname after a prefix that resolved: the lists grow at their ends. */
  lemma ResolveSnoc(appName: string, clusterIssuer: string, prefix: seq<Cname>, c: Cname, http: seq<string>, https: seq<HttpsEndpoint>)
    requires Resolve(appName, clusterIssuer, prefix) == Ok(Ingress(http, https))
    requires !(NeedsIssuer(c) && clusterIssuer == "")
    ensures Resolve(appName, clusterIssuer, prefix + [c])
         == if c.secure then Ok(Ingress(http, https + [EndpointFor(appName, c)]))
            else Ok(Ingress(http + [c.name], https))
  {
    ResolveAppend(appName, clusterIssuer, prefix, [c]);
    ResolveOne(appName, clusterIssuer, c);
    assert http + [] == http;
    assert https + [] == https;
  }

  /** A single cname that needs the missing issuer fails the whole call, wherever it stands. */
  lemma ResolveFailsAt(appName: string, clusterIssuer: string, cs: seq<Cname>, i: nat)
    requires i < |cs| && NeedsIssuer(cs[i]) && clusterIssuer == ""
    ensures Resolve(appName, clusterIssuer, cs) == Err(MissingClusterIssuer)
  {
    ResolveIsPartition(appName, clusterIssuer, cs);
  }

  /**
   * `newIngress` as a loop: one pass over the cnames, appending to `http` or
   * `https`, returning at the first cname that needs the missing issuer.
   */
  method NewIngressLoop(app: App, framework: Framework) returns (r: Result<Ingress>)
    ensures r == NewIngress(app, framework)
  {
    var cs := app.cnames;
    var http: seq<string> := [];
    var https: seq<HttpsEndpoint> := [];
    for i := 0 to |cs|
      invariant Resolve(app.name, framework.clusterIssuer, cs[..i]) == Ok(Ingress(http, https))
    {
      var c := cs[i];
      if NeedsIssuer(c) && framework.clusterIssuer == "" {
        ResolveFailsAt(app.name, framework.clusterIssuer, cs, i);
        return Err(MissingClusterIssuer);
      }
      ResolveSnoc(app.name, framework.clusterIssuer, cs[..i], c, http, https);
      if c.secure {
        https := https + [EndpointFor(app.name, c)];
      } else {
        http := http + [c.name];
      }
      assert cs[..i + 1] == cs[..i] + [c];
    }
    assert cs[..|cs|] == cs;
    r := Ok(Ingress(http, https));
  }
}
