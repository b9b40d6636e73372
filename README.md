# Ingress resolution of ketch's `chart` package

ketch deploys applications onto a Kubernetes cluster. Before the chart for an
application is rendered, `newIngress(app, framework)` in package `chart` turns
the application's custom domains ("cnames") and the framework's cluster issuer
into an `ingress` value:

- a cname that is not secure goes, unchanged, into the `Http` list;
- a secure cname becomes an `httpsEndpoint` in the `Https` list, holding the
  domain, the name of the TLS secret, the name of its ingress rule
  (`<app>-https-<domain with '.' replaced by '-'>`) and who manages the
  certificate: `user` when the cname names its own secret (which is then used
  as is), `certManager` otherwise (the secret is then
  `<app>-cname-<domain with '.' replaced by '-'>`);
- a secure cname without a secret of its own, while the framework names no
  cluster issuer, makes the whole call fail with the error
  "secure cnames require a framework.Ingress.ClusterIssuer to be specified".

The model is one module, `Chart`, in `ingress.dfy`:

- `Cname`, `App`, `Framework`, `ManagedBy`, `HttpsEndpoint` and `Ingress` are
  datatypes; `App` keeps only the application's name and its cnames, `Framework`
  only the cluster issuer. An empty string stands for "no secret name" and "no
  issuer".
- `Result` is `Ok(value)` or `Err(message)`; the error carries only its text,
  and no partial result comes with it.
- `Resolve` is the resolution, a recursive function over the cnames that
  handles them in order and stops at the first one that needs the missing
  issuer. `NewIngress(app, framework)` applies it to the parts of `app` and
  `framework` that the test sets.
- `Insecure`, `Secure`, `Names`, `Endpoints` and `AnyNeedsIssuer` are a second,
  independent description: first check every cname, then split the list and map
  each half. `ResolveIsPartition` proves the two equal for all inputs.
- `NewIngressLoop` is the same resolution as a loop that appends to two lists,
  proved equal to `NewIngress`.

The behaviour is taken from the package's table-driven test,
internal/chart/ingress_test.go; internal/chart/ingress.go, where `newIngress`
itself lives, is not part of this model.

## Model

| member | source | states |
|---|---|---|
| `Chart.Sanitize` | internal/chart/ingress_test.go:32-33 | the domain segment of a synthesized name has the domain's length, every '.' becomes '-' and every other character stays; it contains no '.', and it equals the domain exactly when the domain has no '.' |
| `Chart.CnameSecretName` | internal/chart/ingress_test.go:32 | the cert-manager secret rule `<app>-cname-<domain with '.' replaced by '-'>`; it has no contract of its own and is pinned down by `NamingExample` (the test's value), `CnameSecretNameInjective` (equal names exactly for equal sanitized domains), `SecretNameIsNotRuleName` and `HttpsEndpointFields` (used for every cert-manager endpoint) |
| `Chart.HttpsUniqueName` | internal/chart/ingress_test.go:32-33 | the ingress-rule name `<app>-https-<domain with '.' replaced by '-'>`; it has no contract of its own and is pinned down by `NamingExample`, `HttpsUniqueNameInjective`, `SanitizeCollision` and `HttpsEndpointFields` (used for every endpoint, whoever manages its secret) |
| `Chart.SanitizeAppend` | internal/chart/ingress_test.go:32-33 | sanitizing works character by character: it distributes over concatenation |
| `Chart.SanitizeExample` | internal/chart/ingress_test.go:32-33 | "b.name" becomes "b-name" and "c.name" becomes "c-name" |
| `Chart.NamingExample` | internal/chart/ingress_test.go:32-33 | for the application "my-app", the cert-manager secret of "b.name" is "my-app-cname-b-name" and the rule names of "b.name" and "c.name" are "my-app-https-b-name" and "my-app-https-c-name" |
| `Chart.HttpsUniqueNameInjective` | internal/chart/ingress_test.go:32-33 | two domains of one application get the same rule name if and only if their sanitized forms are equal |
| `Chart.CnameSecretNameInjective` | internal/chart/ingress_test.go:32 | two domains of one application get the same cert-manager secret name if and only if their sanitized forms are equal |
| `Chart.SanitizeCollision` | internal/chart/ingress_test.go:32-33 | two different domains, "a.b" and "a-b", get the same rule name |
| `Chart.SecretNameIsNotRuleName` | internal/chart/ingress_test.go:32 | a synthesized secret name never equals a rule name of the same application |
| `Chart.NeedsIssuer` | internal/chart/ingress_test.go:52-59 | the error condition: a secure cname with no secret name; it has no contract of its own and is pinned down by `ResolveIsPartition` and `NewIngress` (the call fails exactly when the issuer is empty and some cname satisfies it) and `ResolveFailsAt` (one such cname anywhere fails the call) |
| `Chart.EndpointFor` | internal/chart/ingress_test.go:31-33 | builds the four-field endpoint of a secure cname, with the user's secret and `User` when one is given and the cert-manager secret and `CertManager` otherwise; it has no contract of its own and is pinned down by `HttpsEndpointFields` (all four fields of the k-th endpoint in both cases) and `ResolveIsPartition` (`Https` is exactly these endpoints of the secure cnames, in order) |
| `Chart.Resolve` | internal/chart/ingress_test.go:21-60 | on failure the message is exactly "secure cnames require a framework.Ingress.ClusterIssuer to be specified"; on success the two lists together have as many entries as there are cnames |
| `Chart.Insecure` | internal/chart/ingress_test.go:23-30 | keeps exactly the non-secure cnames: everything it returns is a non-secure input cname, and every non-secure input cname is in it |
| `Chart.Secure` | internal/chart/ingress_test.go:23-34 | keeps exactly the secure cnames: everything it returns is a secure input cname, and every secure input cname is in it |
| `Chart.PartitionComplete` | internal/chart/ingress_test.go:23-35 | the non-secure and the secure cnames together are the input: their lengths add up to the input's and their multisets to the input's multiset |
| `Chart.ResolveIsPartition` | internal/chart/ingress_test.go:21-60 | for all inputs, resolution fails with the issuer error exactly when the issuer is empty and some secure cname has no secret name, and otherwise returns the names of the non-secure cnames and the endpoints of the secure cnames, each in input order |
| `Chart.NewIngress` | internal/chart/ingress_test.go:81-86 | `newIngress(app, framework)` fails if and only if the framework's issuer is empty and some secure cname of the app lacks a secret name, always with the issuer error; otherwise `Http` is the names of the non-secure cnames and `Https` the endpoints of the secure cnames, in input order |
| `Chart.ResolveAppend` | internal/chart/ingress_test.go:23-34 | cnames are handled left to right: resolving `a + b` fails if either part fails, and otherwise yields the lists of `a` followed by the lists of `b` |
| `Chart.ResolveOne` | internal/chart/ingress_test.go:24-26 | one cname alone gives its name in `Http` when not secure, the issuer error when it is secure without secret and the issuer is empty, and its endpoint in `Https` otherwise |
| `Chart.ResolveFailsAt` | internal/chart/ingress_test.go:52-59 | a single secure cname without secret name, anywhere in the list, makes the whole call fail with the issuer error when the issuer is empty, whatever the other cnames are |
| `Chart.HttpsEndpointFields` | internal/chart/ingress_test.go:31-34 | on success the k-th endpoint belongs to the k-th secure cname: same domain, rule name `<app>-https-<sanitized domain>`, and either the user's secret with `User` or `<app>-cname-<sanitized domain>` with `CertManager` |
| `Chart.HttpHostFields` | internal/chart/ingress_test.go:30 | on success the k-th `Http` entry is the unchanged name of the k-th non-secure cname |
| `Chart.EveryCnameRouted` | internal/chart/ingress_test.go:23-35 | on success `Http` and `Https` together have one entry per cname, every non-secure cname's name is in `Http` and every secure cname's endpoint is in `Https` |
| `Chart.NoSecureCnames` | internal/chart/ingress_test.go:37-50 | with no secure cname the call succeeds whatever the issuer, with every name in `Http` in order and `Https` empty |
| `Chart.UserSecretsIgnoreIssuer` | internal/chart/ingress_test.go:26-33 | when every secure cname names its own secret, the call succeeds and its result is the same whatever the issuer |
| `Chart.UniqueNamesDistinct` | internal/chart/ingress_test.go:32-33 | on success the rule names of the endpoints are pairwise distinct whenever the sanitized secure domains are |
| `Chart.CertManagerSecretsDistinct` | internal/chart/ingress_test.go:32 | on success any two endpoints managed by cert-manager have different secret names whenever the sanitized secure domains are pairwise distinct |
| `Chart.UserSecretCollision` | internal/chart/ingress_test.go:32-33 | a user secret is passed through unchecked, so "b.name" without secret next to "x" with secret "my-app-cname-b-name" gives two endpoints, one per manager, with the same secret name |
| `Chart.TwoSecure` | internal/chart/ingress_test.go:25-34 | two secure cnames, with an issuer set, give no `Http` entry and their two endpoints in order |
| `Chart.PlainThenTwoSecure` | internal/chart/ingress_test.go:23-34 | a non-secure cname followed by two secure ones, with an issuer set, gives one `Http` entry and the two endpoints in order |
| `Chart.HappyCase` | internal/chart/ingress_test.go:21-36 | the test's "happy" case gives exactly the expected `Http` and `Https` lists |
| `Chart.NoHttpsNoIssuerCase` | internal/chart/ingress_test.go:37-50 | the test's second case gives `Http` ["a.name", "b.name"] and no endpoint, with no issuer |
| `Chart.NoIssuerCase` | internal/chart/ingress_test.go:51-60 | the test's "sad" case fails with exactly the expected message |
| `Chart.NewIngressLoop` | internal/chart/ingress_test.go:81-86 | the loop that appends to `Http` and `Https` and returns at the first cname needing the missing issuer returns exactly `NewIngress(app, framework)` |

## Left out

- Kubernetes types: `ketchv1.App`, `ketchv1.Framework` and their specs are reduced to the application's name, its cnames and the framework's cluster issuer, the only fields internal/chart/ingress_test.go:64-80 sets; any other field `newIngress` may read is at its zero value in every case of the test and is not modelled.
- internal/chart/ingress.go is not part of this model; its body is reconstructed from the test, so details the test does not pin (for instance whether "no secret name" is tested as an empty string) follow the test's inputs.
- The Go test expects `Https` to be a nil slice when there is no secure cname; Dafny sequences have no nil, so the model returns an empty sequence.
- ingress_test.go uses the identifiers `certManager` and `user` but not their string values; `ManagedBy` is a two-variant datatype.
- The error is modelled by its message only; the Go error type and any wrapping are not.
- Limits on Kubernetes resource-name length are not modelled: nothing in ingress_test.go checks or truncates name lengths.
- Collisions of synthesized names are not resolved, because the test has no case with colliding domains; `SanitizeCollision` shows that two different domains can share a rule name, so rule names and cert-manager secret names are unique only for distinct sanitized domains (`UniqueNamesDistinct`, `CertManagerSecretsDistinct`), not for all distinct domains, and `UserSecretCollision` shows that a user-supplied secret can equal a synthesized one.
- Duplicate cnames are neither removed nor rejected; they reach the output as often as they occur.
- The chart rendering that consumes the result, the reconciler that calls `newIngress`, and the Go test harness (`testing`, testify's `require`) are outside this model.
