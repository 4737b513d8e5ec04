# Security headers edge function, modelled in Dafny

The repository's logic is one CloudFront viewer-response function,
`handler(event)` in `security-headers.js`. It takes the event the edge runtime
passes in and reaches `event.response.headers`, a table from header name to a
descriptor object `{ value: ... }`. It overwrites seven fixed header names with
fresh descriptors holding fixed literal values, and it returns the same
response object. The seven headers are HSTS, Content-Security-Policy,
X-Content-Type-Options, X-Frame-Options, X-XSS-Protection, Referrer-Policy and
Permissions-Policy.

The model has two modules:

- `HeaderPolicy` (`header_policy.dfy`) holds the pure part:
  - `Descriptor` is a descriptor object. It has the `value` field and an
    opaque `otherFields` map for anything else the host attached.
  - `Policy` is the seven (name, value) pairs in the source order.
  - `Assign` is a run of assignment statements `headers[n] = { value: v }`,
    one after the other.
  - `ApplyPolicy` is what the function does to a header table.
  - `Sets` is an order-free reference meaning: the old keys plus the assigned
    names, a fresh descriptor per assigned name, every other key unchanged.
  - `PolicyTable` is the seven headers as a table.
  - The lemmas relate these to each other.
- `SecurityHeaders` (`security_headers.dfy`) holds the imperative part.
  - `Event`, `Response` and `HeaderTable` are classes. `response.headers` is an
    object of its own, so the function writes into the `entries` field of
    that `HeaderTable` in place. Its `modifies` frame is that one object,
    which makes the pass-through of the event and of every other field of
    the response a frame fact.
  - `Handler` performs the seven assignments literally, in the source order.
    It is proved equal to `ApplyPolicy` of the old table.
  - A malformed event ends in an `Outcome` of `Threw`. This covers
    `event.response` undefined (line 3) and `response.headers` undefined
    (line 6). On those paths the frame is empty, so no partial header set
    can be written.

A malformed event raises a JavaScript `TypeError`, either at line 3, where
`response` is undefined, or at line 6, where `headers` is undefined. The model
calls the two cases `ResponseMissing` and `HeadersMissing`.

HTTP field names are case-insensitive (section 5.1 of RFC 9110), but the code
writes lower-case literal keys into a plain object and compares nothing. So a
key such as `X-Frame-Options` is a different, unmanaged key in the model.

## Model

| member | source | states |
|---|---|---|
| `SecurityHeaders.Handler` | security-headers.js:1-35 | With no response it throws `ResponseMissing`, and with no header table it throws `HeadersMissing`; in both cases it writes nothing. Otherwise it returns the very same response object, and the header table afterwards equals `ApplyPolicy` of the table before. The event and every field of the response object (status fields and the reference to the header table) are unchanged, and only that header table may change. |
| `SecurityHeaders.WritesAreUnion` | security-headers.js:6-32 | The seven assignment statements applied one after another give the old table overridden by the seven-entry policy table. |
| `SecurityHeaders.HandleTwice` | security-headers.js:1-35 | Two calls on the same event end the same way. With no response both throw `ResponseMissing`, and with no header table both throw `HeadersMissing`. On a well-formed event both return the very same response object, and the header table ends just as one call leaves it. |
| `HeaderPolicy.Fresh` | security-headers.js:6-8 | Definition of the object literal `{ value: v }`: `Descriptor(v, map[])`. It takes no old descriptor, so nothing can be merged into it. Wholesale replacement is proved by `AssignOverride`, `Override` and `OverrideFrameOptions`. |
| `HeaderPolicy.Assign` | security-headers.js:6-32 | A run of assignments `headers[n] = { value: v }` in the order given, each replacing the whole descriptor. No key is removed, and the last assignment of the run is what its name holds afterwards. |
| `HeaderPolicy.AssignSets` | security-headers.js:6-32 | Any run of assignments that never gives one name two different values meets `Sets`, whatever its order and whatever the table held before. This is proved by induction on the run. |
| `HeaderPolicy.AssignKeys` | security-headers.js:6-32 | A run of assignments adds exactly the assigned names to the keys and removes none. |
| `HeaderPolicy.AssignNonInterference` | security-headers.js:6-32 | A run of assignments leaves a name it does not assign present exactly when it was present before, with the same descriptor. |
| `HeaderPolicy.AssignIsUnion` | security-headers.js:6-32 | A run of assignments equals the map union of the old table and the table the same run builds from nothing, in which the assigned side wins. |
| `HeaderPolicy.SetsDetermines` | security-headers.js:6-32 | The order-free meaning fixes the resulting table uniquely. |
| `HeaderPolicy.AssignIdempotent` | security-headers.js:6-32 | Applying any run of assignments twice gives the same table as running it once. |
| `HeaderPolicy.AssignOverride` | security-headers.js:6-32 | After any run of assignments, the old contents of the assigned names never show through. Two tables that agree on every other name give the same result. |
| `HeaderPolicy.OrderIndependent` | security-headers.js:6-32 | Two runs of assignments with the same set of pairs give the same table, provided neither gives a name two values. |
| `HeaderPolicy.ReorderedPolicy` | security-headers.js:6-32 | Every permutation of the seven policy assignments gives the same table as the source order. |
| `HeaderPolicy.ApplyPolicy` | security-headers.js:6-32 | The seven policy assignments in the source order. The result meets `Sets`. Its keys are the old keys plus the seven names. Each policy name holds `{ value: literal }` with no other field. Every other old key keeps its descriptor. |
| `HeaderPolicy.PolicyNamesDistinct` | security-headers.js:6-30 | The seven header names written at lines 6, 10, 14, 18, 22, 26 and 30 are pairwise distinct. |
| `HeaderPolicy.ManagedNamesAre` | security-headers.js:6-30 | The set of managed names is exactly the seven literal header names. |
| `HeaderPolicy.PolicyValues` | security-headers.js:6-32 | For every input table, each of the seven names holds a descriptor whose `value` is its literal exactly and which has no other field. |
| `HeaderPolicy.Complete` | security-headers.js:6-32 | Every managed name is present afterwards with a non-empty value. |
| `HeaderPolicy.NonInterference` | security-headers.js:6-32 | For the policy, a key outside the managed set is present afterwards exactly when it was present before, and its descriptor is unchanged. |
| `HeaderPolicy.KeySet` | security-headers.js:6-32 | The keys afterwards are the keys before plus the seven managed names. |
| `HeaderPolicy.ApplyPolicyIsUnion` | security-headers.js:6-32 | The result is the map union `h + PolicyTable`, in which the policy side wins. |
| `HeaderPolicy.EmptyTable` | security-headers.js:6-32 | An empty table comes out as exactly the seven-entry policy table, with seven entries. |
| `HeaderPolicy.Override` | security-headers.js:6-32 | Removing the managed names from the input changes nothing in the result. So what a managed name held before (absent, empty or conflicting, with any extra fields) never shows through. |
| `HeaderPolicy.OverrideFrameOptions` | security-headers.js:18-20 | `x-frame-options: SAMEORIGIN`, even with extra descriptor fields, becomes exactly `{ value: "DENY" }`. |
| `HeaderPolicy.Idempotent` | security-headers.js:6-32 | Applying the policy twice gives the same table as applying it once. |

## Left out

- The CloudFront Functions runtime and its event dispatch are not modelled. The event is a given `Event` object. Its other fields (`request`, `context`, `viewer`) are not read by the function and are not modelled.
- A `headers` value that is defined but is not an ordinary object (a string or number primitive, a frozen object, an object with setters) is not modelled. Only a missing response and a missing header table are modelled as failures.
- Concurrent invocations are not modelled. Each call is independent and the policy is a read-only constant.
- The meaning and syntax of the header values (HSTS, Content Security Policy, X-Frame-Options, Permissions-Policy) are not modelled. The code never parses them, so the model treats them as opaque strings.
- The insertion order of keys in the JavaScript header object is not modelled, because the model uses a map. The order in which the host emits headers is outside the function.
- The Terraform and other infrastructure files of the repository are deployment configuration, not logic, and are not modelled.
