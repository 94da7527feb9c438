# Geffe generator and textbook RSA, modelled in Dafny

This project models the two pieces of logic in the `cryptography` repository.

**The Geffe keystream generator** (`geffe_generator.py`) has three parts:

- Three linear feedback shift registers (LFSRs) with 4-bit initial states `0100`, `0111` and `0110`.
- Their taps are `[0, 1]`, `[0, 3]` and `[0, 1, 2, 3]`.
- Each step emits the first cell, drops it, and appends the XOR of the tapped cells of the state before the shift.

`simulate(steps)` works in four phases:

1. It runs each register alone.
2. It resets the registers to their initial vectors and steps them in lockstep.
3. It builds the keystream (gamma): the second generator's bit where the control bit is `'1'`, the first generator's bit elsewhere.
4. It XORs the keystream into the normalised plaintext, but only when the plaintext has exactly `steps` characters.

**The RSA script** (`RSA.py`) has these parts:

- trial-division primality;
- the fixed primes 257 and 167;
- the public exponent, which is the first of `[3, 5, 7, 11, 13, 17, 65537]` that is below φ and coprime to it;
- the private exponent `d = x mod φ`, taken from the recursive extended Euclid `egcd`;
- validation and conversion of two binary-string inputs;
- the bare RSAEP/RSADP primitives `pow(m, e, n)` and `pow(c, d, n)` of sections 5.1.1 and 5.1.2 of RFC 8017. The range check on the message representative is absent, as in the script.

Files:

- `wrappers.dfy`: `Option` and `Result`.
- `shift_register.dfy` (module `ShiftRegister`): the register as the class `Lfsr`. The value functions `Feedback`, `Next`, `Run` and `Outputs` specify it.
- `geffe.dfy` (module `Geffe`): plaintext normalisation, the digit-wise XOR cipher, the Geffe selection, the register drivers and `Simulate`.
- `number_theory.dfy` (module `NumberTheory`): Python's floor `//` and `%`, divisibility, `Gcd` (the value of `math.gcd`), `Egcd`, the integer square root, primality.
- `rsa.dfy` (module `Rsa`): `IsPrime` with its loop `OddTrialDivision`, `ChooseExponent`, `PrivateExponent`, `ModPow`, the binary conversions, `SetUpKey` and `RunScript`.

Details of the code that the model keeps:

- The code validates no configuration. A step needs a non-empty state and taps that index it, and `Lfsr.Step` requires exactly that (`Valid()`).
- The code has no `reset` operation. `Simulate` assigns the register fields directly, as the script does.
- For `steps <= 0` the code's loops run zero times. The length check still compares against the raw `steps`.
- The code selects on characters (`ctrl_seq[i] == '1'`), not on bits.
- The cipher applies `int()` to each plaintext character. So any decimal digit is accepted, and XOR with a keystream bit flips only its lowest bit.
- A character that is not a digit raises an error at that position. The model reports it as `NotADigit(index)`.

## Model

| member | source | states |
|---|---|---|
| ShiftRegister.Xor | geffe_generator.py:36 | XOR of two cells is their sum modulo 2 |
| ShiftRegister.Render | geffe_generator.py:28 | the string form has one character per cell, `'1'` exactly where the cell is 1 |
| ShiftRegister.ParseRender | geffe_generator.py:42 | the string form of a state reads back as exactly that state |
| ShiftRegister.RenderParse | geffe_generator.py:48 | a bit string that reads back is the string form of what it reads as |
| ShiftRegister.Feedback | geffe_generator.py:34-36 | the XOR accumulated over the taps equals the parity of the number of tapped cells holding 1, so it does not depend on the tap order |
| ShiftRegister.FeedbackOfZero | geffe_generator.py:34-36 | an all-zero state feeds back 0 for any taps |
| ShiftRegister.Next | geffe_generator.py:39 | dropping the first cell and appending the feedback keeps the register width |
| ShiftRegister.Run | geffe_generator.py:65-66 | any number of steps keeps the register width |
| ShiftRegister.Outputs | geffe_generator.py:65-68 | `n` steps produce exactly `n` output bits |
| ShiftRegister.RunSucc | geffe_generator.py:85-88 | one step after `n` steps gives the state after `n + 1` steps |
| ShiftRegister.OutputsSucc | geffe_generator.py:90-92 | the outputs of `n + 1` steps are those of `n` steps followed by the first cell of the state after `n` steps |
| ShiftRegister.OutputAt | geffe_generator.py:31 | the `i`-th output bit is the first cell of the state after `i` steps |
| ShiftRegister.ZeroIsFixedPoint | geffe_generator.py:31-39 | an all-zero state stays all-zero for any number of steps and emits only 0 |
| ShiftRegister.KnownAnswerStep | geffe_generator.py:4-10 | taps `[0, 1]` on `0100` feed back 1 and give the new state `1001` |
| ShiftRegister.Lfsr.constructor | geffe_generator.py:20-23 | the register keeps the taps and the name, and its state equals the initial vector (a copy: sequences are values) |
| ShiftRegister.Lfsr.Step | geffe_generator.py:25-44 | the output bit is the first cell before the shift; the new state is the old state without its first cell followed by the feedback bit; the width is kept; the two returned strings render the old and the new state |
| ShiftRegister.Lfsr.GetState | geffe_generator.py:46-48 | the returned string has one character per cell and reads back as the current state |
| Geffe.Count | geffe_generator.py:85 | the number of iterations of `range(steps)`: `steps` when positive, otherwise 0 |
| Geffe.IsSpace | geffe_generator.py:115 | Python's whitespace set: it holds space, tab, newline and carriage return, and excludes `'0'` and `'1'` |
| Geffe.StripLeft | geffe_generator.py:115 | the result is a suffix of the input that does not start with whitespace, and every character removed before it is whitespace |
| Geffe.StripRight | geffe_generator.py:115 | the result is a prefix of the input that does not end with whitespace, and every character removed after it is whitespace |
| Geffe.Strip | geffe_generator.py:115 | no whitespace is left at either end |
| Geffe.StripTrimsWhitespace | geffe_generator.py:115 | the stripped text is one contiguous piece of the input, and everything cut away before and after it is whitespace |
| Geffe.RemoveSpaces | geffe_generator.py:115 | no space is left; a non-space first or last character stays first or last; a string without spaces is unchanged |
| Geffe.RemoveSpacesKeepsOthers | geffe_generator.py:115 | every character other than the space occurs in the result exactly as often as in the input |
| Geffe.RemoveSpacesAppend | geffe_generator.py:115 | removing spaces from a concatenation concatenates the results, so the kept characters stay in their order |
| Geffe.Normalize | geffe_generator.py:115 | the normalised plaintext has no space and no whitespace at either end; a text without whitespace is left unchanged |
| Geffe.NormalizeKeepsOthers | geffe_generator.py:115 | every character that is not whitespace occurs in the normalised text exactly as often as in the input |
| Geffe.NormalizeIdempotent | geffe_generator.py:115 | normalising twice is normalising once |
| Geffe.DefaultPlaintextIsNormal | geffe_generator.py:15 | the built-in plaintext is a 16-character bit string that normalisation leaves unchanged |
| Geffe.DigitXor | geffe_generator.py:124 | XOR of a decimal digit with a keystream bit is again a digit; it keeps all bits but the lowest and sets the lowest to the sum modulo 2 |
| Geffe.DigitXorOnBits | geffe_generator.py:124 | on the characters `'0'` and `'1'` the digit XOR is the cell XOR of the registers |
| Geffe.XorText | geffe_generator.py:122-127 | the ciphertext has the plaintext's length and its `i`-th digit is the XOR of the `i`-th plaintext digit with the `i`-th keystream bit |
| Geffe.XorTextSelfInverse | geffe_generator.py:122-127 | XORing the ciphertext with the same keystream gives back the plaintext |
| Geffe.DigitXorTwice | geffe_generator.py:122-127 | one digit XORed twice with the same keystream bit is the digit again |
| Geffe.Encrypt | geffe_generator.py:117-127 | `LengthMismatch` exactly when the text length differs from `steps`; a ciphertext exactly when the length matches and every character is a digit, and then it is the digit-wise XOR; otherwise `NotADigit(i)` for the first character `i` that is not a digit |
| Geffe.Combine | geffe_generator.py:104-111 | the keystream has length `steps`, and its `i`-th bit is R1's `i`-th bit where the control's `i`-th bit is `'1'` and R0's otherwise; when both generator sequences are bit strings so is the keystream |
| Geffe.RunAlone | geffe_generator.py:63-68 | running one register `n` times yields the string of its first `n` output bits and leaves it in its `n`-th state |
| Geffe.Lockstep | geffe_generator.py:85-96 | stepping three distinct registers together yields each register's own output string and `n`-th state |
| Geffe.Simulate | geffe_generator.py:51-127 | the three lockstep outputs are the outputs from the initial vectors, equal to those of the phase that ran each register alone; the keystream is a bit string and their Geffe selection; for the normalised plaintext, `LengthMismatch` exactly when its length differs from `steps`, a ciphertext (the digit-wise XOR) exactly when the length matches and all characters are digits, and otherwise `NotADigit(i)` for its first non-digit `i` |
| NumberTheory.FloorDiv | RSA.py:44 | `a // b` is the quotient rounded towards minus infinity, for either sign of `b` |
| NumberTheory.FloorMod | RSA.py:41 | `a % b` completes the floor quotient, has the sign of `b`, and is smaller than `b` in magnitude, which makes the recursion of `egcd` terminate |
| NumberTheory.Egcd | RSA.py:38-45 | `egcd(a, b) = (g, x, y)` satisfies `g == x*a + y*b` for all integers, `egcd(a, 0) == (a, 1, 0)` for every `a`, and it terminates because the magnitude of `b` decreases |
| NumberTheory.EgcdComputesGcd | RSA.py:38-45 | on natural numbers, `g` is the value Euclid's algorithm computes |
| NumberTheory.GcdIsGcd | RSA.py:33 | Euclid's `Gcd` divides both arguments, and every common divisor divides it |
| NumberTheory.MathGcd | RSA.py:33 | `math.gcd` of any two integers, of either sign, is their greatest common divisor |
| NumberTheory.EgcdIsGcd | RSA.py:39-40 | for `a, b >= 0` the `g` of `egcd` is the greatest common divisor |
| NumberTheory.Isqrt | RSA.py:10 | `r*r <= n < (r+1)*(r+1)`: the exact integer square root |
| NumberTheory.TrialDivisionDecidesPrimality | RSA.py:10-14 | for odd `n >= 3`, no odd `i` in `[3, isqrt(n)]` divides `n` exactly when `n` is prime |
| Rsa.IsPrime | RSA.py:5-14 | false below 2; for even `n` true exactly for 2; for odd `n >= 3` true exactly when no odd `i` in `[3, isqrt(n)]` divides `n`; in all cases true exactly for primes |
| Rsa.OddTrialDivision | RSA.py:11-14 | the loop answers true exactly when no odd `i` with `3 <= i <= r` divides `n` |
| Rsa.Usable | RSA.py:33 | a candidate is usable exactly when it is below φ and 1 is its greatest common divisor with φ |
| Rsa.ChooseExponent | RSA.py:31-35 | `None` exactly when no candidate is below φ and coprime to it; otherwise a candidate that is, and no smaller candidate is |
| Rsa.PrivateExponent | RSA.py:48-51 | an error exactly when `gcd(e, φ) != 1`; otherwise `0 <= d < φ` and `(e*d) % φ == 1` |
| Rsa.InverseUnique | RSA.py:51 | an inverse of `e` modulo φ in `[0, φ)` is unique |
| Rsa.ModPow | RSA.py:69 | `pow(b, e, n)` lies in `[0, n)` and equals `b^e mod n` |
| Rsa.BinaryInputByCount | RSA.py:58-61 | the input check `IsBinaryInput` passes exactly when the string is non-empty and its zeros and ones make up all of it |
| Rsa.FromBinary | RSA.py:64 | `int(s, 2)` is below `2^len(s)` |
| Rsa.ToBinary | RSA.py:70 | `bin(v)[2:]` is a non-empty binary string with a leading `'1'` unless `v == 0`, and `v >= 2^(len - 1)` for `v > 0` |
| Rsa.FromToBinary | RSA.py:70 | reading back the digits of `bin(v)[2:]` gives `v` |
| Rsa.ToFromBinary | RSA.py:64-65 | a binary input without leading zeros is exactly the `bin` digits of its value |
| Rsa.SetUpKey | RSA.py:27-51 | `n = p*q`, `φ = (p-1)*(q-1)`; failure exactly when no candidate exponent is usable; otherwise `e` is the first usable candidate and `d` is its inverse modulo φ in `[0, φ)` |
| Rsa.RunScript | RSA.py:20-74 | a non-binary or empty first input fails before the second is validated; with both inputs valid the key is `n = 42919`, `φ = 42496`, `e = 3`, `d = 28331`; the results are `m^e mod n` and `c^d mod n`, with their `bin` digits |

## Left out

- Console output and argument parsing: `print`, `argparse` and the step traces written to the console. These are I/O only. `Simulate` returns the values the script prints instead.
- The two `input()` calls of the RSA script are I/O. `RunScript` takes the two strings as parameters.
- The random choice of the primes and the `while q == p` loop. They are non-deterministic and dead, since the primes are fixed.
- The list `primes` built from `is_prime` over `[128, 256)`. Only that dead random choice uses it.
- The floating-point `int(n**0.5)`. It is replaced by the exact integer square root `Isqrt`. For very large `n` the float can differ from it.
- Negative tap indices. Python would read them from the end of the list; the model's taps are natural numbers.
- The `IndexError` that an empty state or an out-of-range tap would raise in a step. `Lfsr.Step` requires `Valid()` instead.
- Cells other than 0 and 1. The source only ever stores 0 and 1.
- Non-ASCII decimal digits in the plaintext, which Python's `int()` also accepts. The model treats them as non-digits.
- Whitespace for `strip()` is Python's `str.isspace` set, written out as code points; no other Unicode property is modelled.
- The feedback-polynomial comments and any claim about period length or the bias of the Geffe combiner. The code neither checks nor relies on them.
- The cryptographic strength of either scheme.
- Rsa.PrivateExponent: requires `φ > 1` (the script only calls it with `3 <= e < φ`). The `ZeroDivisionError` for `φ == 0` is not modelled.
- Rsa.ModPow: requires a positive modulus. Python's results for a negative or zero modulus are not modelled; the script's modulus is 42919.
- Rsa.SetUpKey: without a usable exponent, Python raises a `TypeError` inside `egcd(None, φ)`, or the script's own exception when `φ == 0`. Both are modelled as the single error `NoPublicExponent`.
- RSA correctness, that `pow(pow(m, e, n), d, n) == m` for `m < n`, is not proved. It needs Fermat's little theorem, which this model does not develop.
